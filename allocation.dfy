/** Questioner.setupQuestions (sketch.js:184-198): each questioner draws up to
    three question ids, first from its own `id % 3` partition of the catalog,
    then from the ids no questioner held when the call began. */
module Allocation {
  import opened Seqs
  import opened Quiz

  /** At most this many ids per questioner (sketch.js:189, 193). */
  const MaxAssigned := 3

  /** How many ids the first loop draws from a partition of `size` ids. */
  function PartitionShare(size: nat): nat
  {
    if size < MaxAssigned then size else MaxAssigned
  }

  /** The first loop (sketch.js:189-192): draw from the partition, without
      replacement, until three are drawn or the partition is used up.
      `left` is what remains of the pool, `steps` the number of draws. */
  method DrawPartition(part: seq<int>, index: nat, roll: (nat, nat) -> nat)
    returns (drawn: seq<int>, left: seq<int>, steps: nat)
    ensures multiset(drawn) + multiset(left) == multiset(part)
    ensures |drawn| + |left| == |part|
    ensures |drawn| == PartitionShare(|part|)
    ensures |drawn| < MaxAssigned ==> left == []
  {
    drawn, left, steps := [], part, 0;
    while |drawn| < MaxAssigned && |left| > 0
      invariant multiset(drawn) + multiset(left) == multiset(part)
      invariant |drawn| <= MaxAssigned
      decreases |left|
    {
      var r := roll(index, steps) % |left|;
      drawn := drawn + [left[r]];
      left := Splice(left, r);
      steps := steps + 1;
    }
    assert |multiset(drawn)| + |multiset(left)| == |multiset(part)|;
  }

  /** The second loop (sketch.js:193-197): draw from `supplement` without
      replacement, keeping only ids not already held, until three are held
      or the supplement is used up. Draws are numbered from `step`. */
  method DrawSupplement(first: seq<int>, supplement: seq<int>, index: nat, step: nat, roll: (nat, nat) -> nat)
    returns (drawn: seq<int>)
    requires |first| <= MaxAssigned
    ensures |first| <= |drawn| <= MaxAssigned && drawn[..|first|] == first
    ensures forall j :: |first| <= j < |drawn| ==> drawn[j] !in first && drawn[j] in supplement
    ensures NoDup(first) ==> NoDup(drawn)
    ensures |drawn| < MaxAssigned ==> forall x :: x in supplement ==> x in drawn
  {
    drawn := first;
    var pool, n := supplement, step;
    while |drawn| < MaxAssigned && |pool| > 0
      invariant |first| <= |drawn| <= MaxAssigned && drawn[..|first|] == first
      invariant forall j :: |first| <= j < |drawn| ==> drawn[j] !in first && drawn[j] in supplement
      invariant forall x :: x in pool ==> x in supplement
      invariant forall x :: x in supplement ==> x in drawn || x in pool
      invariant NoDup(first) ==> NoDup(drawn)
      decreases |pool|
    {
      var r := roll(index, n) % |pool|;
      var id := pool[r];
      pool := Splice(pool, r);
      n := n + 1;
      if id !in drawn {
        assert id !in first by {
          assert forall x :: x in first ==> x in drawn[..|first|];
        }
        if NoDup(first) {
          NoDupAppend(drawn, id);
        }
        drawn := drawn + [id];
      }
    }
  }

  /** What a sub-multiset of a list without duplicates inherits. */
  lemma SubMultiset(a: seq<int>, b: seq<int>)
    requires multiset(a) <= multiset(b)
    ensures forall x :: x in a ==> x in b
    ensures NoDup(b) ==> NoDup(a)
  {
    forall x | x in a ensures x in b {
      assert multiset(a)[x] > 0;
    }
    if NoDup(b) {
      NoDupCounts(b);
      forall x ensures multiset(a)[x] <= 1 {
        assert multiset(a)[x] <= multiset(b)[x];
      }
      NoDupCounts(a);
    }
  }

  /** What one `setupQuestions` call promises about the list `drawn` it
      gives the questioner with 0-based `index`, when `taken` holds the ids
      all questioners held as the call began. */
  ghost predicate Drawn(bank: seq<QuizItem>, index: nat, taken: seq<int>, drawn: seq<int>)
  {
    var part := PartitionIds(bank, index);
    var k := PartitionShare(|part|);
    && |drawn| <= MaxAssigned
    && (forall x :: x in drawn ==> x in Ids(bank))
    && (NoDup(Ids(bank)) ==> NoDup(drawn))
    // the first k ids are drawn from the partition without replacement
    && k <= |drawn| && multiset(drawn[..k]) <= multiset(part)
    && (|part| <= MaxAssigned ==> multiset(drawn[..|part|]) == multiset(part))
    // the rest come from outside the partition and outside `taken`
    && (forall j :: k <= j < |drawn| ==> JsRem(drawn[j], 3) != index && drawn[j] !in taken)
    // fewer than three only when both pools ran dry
    && (|drawn| < MaxAssigned ==>
          forall x :: x in Ids(bank) && (JsRem(x, 3) == index || x !in taken) ==> x in drawn)
  }

  /** One `setupQuestions` call for the questioner with 0-based `index`
      (its name's digit minus one, sketch.js:185). `taken` is
      `questioners.flatMap(q => q.availableQuestionIds)` at the start of the
      call (sketch.js:186), and `roll(index, step) % n` stands for the
      `step`-th `floor(random(n))` of the call. The list grows from empty
      (sketch.js:178). */
  method SetupQuestions(bank: seq<QuizItem>, index: nat, taken: seq<int>, roll: (nat, nat) -> nat)
    returns (drawn: seq<int>)
    ensures Drawn(bank, index, taken, drawn)
  {
    var pool := PartitionIds(bank, index);
    var supplementPool := SupplementIds(bank, taken);
    FilterFacts(Ids(bank), InPartition(index));
    FilterFacts(Ids(bank), NotIn(taken));
    var first, left, steps := DrawPartition(pool, index, roll);
    drawn := DrawSupplement(first, supplementPool, index, steps, roll);
    SubMultiset(first, pool);
    SubMultiset(pool, Ids(bank));
    assert multiset(drawn[..|first|]) <= multiset(pool);
    assert |pool| <= MaxAssigned ==> left == [];
    assert |first| < MaxAssigned ==> forall x :: x in pool ==> x in first by {
      if |first| < MaxAssigned {
        forall x | x in pool ensures x in first {
          assert multiset(pool)[x] > 0;
        }
      }
    }
    assert forall x :: x in first ==> x in drawn by {
      assert forall x :: x in first ==> x in drawn[..|first|];
    }
  }

  /** `Drawn` depends on `taken` only through which ids it holds. */
  lemma DrawnSameTaken(bank: seq<QuizItem>, index: nat, taken: seq<int>, taken': seq<int>, drawn: seq<int>)
    requires Drawn(bank, index, taken, drawn)
    requires forall x :: x in taken <==> x in taken'
    ensures Drawn(bank, index, taken', drawn)
  {
  }

  /** A partition of more than three ids supplies all three ids. */
  lemma LargePartitionDrawn(bank: seq<QuizItem>, index: nat, taken: seq<int>, drawn: seq<int>)
    requires Drawn(bank, index, taken, drawn) && |PartitionIds(bank, index)| >= MaxAssigned
    ensures |drawn| == MaxAssigned
    ensures forall x :: x in drawn ==> x in PartitionIds(bank, index)
  {
    assert drawn[..MaxAssigned] == drawn;
    forall x | x in drawn
      ensures x in PartitionIds(bank, index)
    {
      assert multiset(drawn)[x] > 0;
    }
  }

  /** A partition of exactly three ids is the whole list. */
  lemma FullPartitionDrawn(bank: seq<QuizItem>, index: nat, taken: seq<int>, drawn: seq<int>)
    requires Drawn(bank, index, taken, drawn) && |PartitionIds(bank, index)| == MaxAssigned
    ensures multiset(drawn) == multiset(PartitionIds(bank, index))
  {
    assert drawn[..MaxAssigned] == drawn;
  }

  /** The ids of the shipped catalog are 1..9, each once. */
  lemma BankIds()
    ensures Ids(QuizBank) == [1, 2, 3, 4, 5, 6, 7, 8, 9]
    ensures NoDup(Ids(QuizBank))
  {
    BankIdList();
    DigitsNoDup();
  }

  lemma BankIdList()
    ensures Ids(QuizBank) == [1, 2, 3, 4, 5, 6, 7, 8, 9]
  {
    var ids := seq(|QuizBank|, k requires 0 <= k < |QuizBank| => QuizBank[k].id);
    assert ids == [1, 2, 3, 4, 5, 6, 7, 8, 9];
  }

  lemma DigitsNoDup()
    ensures NoDup([1, 2, 3, 4, 5, 6, 7, 8, 9])
  {
    IncreasingNoDup([1, 2, 3, 4, 5, 6, 7, 8, 9]);
  }

  /** Partition i of the shipped catalog is the three ids congruent to i
      modulo 3 (3, 6, 9 for the first questioner), so setupQuestions never
      reaches its second loop. */
  lemma BankPartition(i: int)
    requires 0 <= i < 3
    ensures PartitionIds(QuizBank, i) == ExpectedPartition(i)
  {
    BankIds();
    DigitPartition(i);
  }

  function ExpectedPartition(i: int): seq<int>
  {
    if i == 0 then [3, 6, 9] else [i, i + 3, i + 6]
  }

  lemma DigitPartition(i: int)
    requires 0 <= i < 3
    ensures Filter([1, 2, 3, 4, 5, 6, 7, 8, 9], InPartition(i)) == ExpectedPartition(i)
  {
    if i == 0 {
      assert Filter([1, 2, 3, 4, 5, 6, 7, 8, 9], InPartition(0)) == [3, 6, 9];
    } else if i == 1 {
      assert Filter([1, 2, 3, 4, 5, 6, 7, 8, 9], InPartition(1)) == [1, 4, 7];
    } else {
      assert Filter([1, 2, 3, 4, 5, 6, 7, 8, 9], InPartition(2)) == [2, 5, 8];
    }
  }
}
