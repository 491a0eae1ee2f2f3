/** Sequence helpers shared by the allocation and session modules: the
    JavaScript list operations `filter`, `splice(i, 1)`, `flatMap` and
    `includes`, stated over `seq<int>`. */
module Seqs {

  /** No value occurs more than once. */
  ghost predicate NoDup(s: seq<int>)
  {
    forall i, j :: 0 <= i < j < |s| ==> s[i] != s[j]
  }

  lemma NoDupAppend(s: seq<int>, x: int)
    requires x !in s
    ensures NoDup(s) ==> NoDup(s + [x])
  {
    assert forall i :: 0 <= i < |s| ==> (s + [x])[i] == s[i];
  }

  lemma NoDupPrepend(x: int, s: seq<int>)
    requires NoDup(s) && x !in s
    ensures NoDup([x] + s)
  {
    assert forall i :: 0 < i <= |s| ==> ([x] + s)[i] == s[i - 1];
  }

  /** Without duplicates, every value is counted at most once. */
  lemma {:induction false} NoDupCounts(s: seq<int>)
    ensures NoDup(s) <==> forall x :: multiset(s)[x] <= 1
  {
    if s != [] {
      var t := s[1..];
      assert s == [s[0]] + t;
      assert multiset(s) == multiset{s[0]} + multiset(t);
      NoDupCounts(t);
      if NoDup(s) {
        assert NoDup(t) by {
          assert forall i :: 0 <= i < |t| ==> t[i] == s[i + 1];
        }
        assert s[0] !in t by {
          assert forall i :: 0 <= i < |t| ==> t[i] == s[i + 1];
        }
      }
      if forall x :: multiset(s)[x] <= 1 {
        assert forall x :: multiset(t)[x] <= 1 by {
          forall x ensures multiset(t)[x] <= 1 {
            assert multiset(t)[x] <= multiset(s)[x];
          }
        }
        assert s[0] !in t by {
          assert multiset(s)[s[0]] == 1 + multiset(t)[s[0]];
        }
        NoDupPrepend(s[0], t);
      }
    }
  }

  /** Each element is smaller than the next. */
  ghost predicate Increasing(s: seq<int>)
  {
    forall k :: 0 < k < |s| ==> s[k - 1] < s[k]
  }

  lemma {:induction false} IncreasingNoDup(s: seq<int>)
    requires Increasing(s)
    ensures NoDup(s)
  {
    if s != [] {
      IncreasingNoDup(s[1..]);
      assert forall k :: 0 <= k < |s| - 1 ==> s[0] < s[1..][k] by {
        IncreasingFrom(s);
      }
      assert s == [s[0]] + s[1..];
      NoDupPrepend(s[0], s[1..]);
    }
  }

  lemma {:induction false} IncreasingFrom(s: seq<int>)
    requires Increasing(s) && s != []
    ensures forall k :: 0 < k < |s| ==> s[0] < s[k]
  {
    if |s| > 1 {
      IncreasingFrom(s[1..]);
      assert forall k :: 1 < k < |s| ==> s[k] == s[1..][k - 1];
    }
  }

  /** `s.filter(keep)`: the elements satisfying `keep`, in their order. */
  function Filter(s: seq<int>, keep: int -> bool): seq<int>
  {
    if s == [] then [] else (if keep(s[0]) then [s[0]] else []) + Filter(s[1..], keep)
  }

  /** Filter keeps exactly the elements satisfying `keep`, each no more
      often than `s` has it. */
  lemma {:induction false} FilterFacts(s: seq<int>, keep: int -> bool)
    ensures forall x :: x in Filter(s, keep) <==> x in s && keep(x)
    ensures multiset(Filter(s, keep)) <= multiset(s)
  {
    if s != [] {
      FilterFacts(s[1..], keep);
      assert s == [s[0]] + s[1..];
    }
  }

  /** Filter keeps every occurrence of a passing element and no other. */
  lemma {:induction false} FilterCounts(s: seq<int>, keep: int -> bool)
    ensures forall x :: multiset(Filter(s, keep))[x] == if keep(x) then multiset(s)[x] else 0
  {
    if s != [] {
      FilterCounts(s[1..], keep);
      assert s == [s[0]] + s[1..];
    }
  }

  /** `s.splice(i, 1)`: `s` without its element at index `i`. */
  function Splice(s: seq<int>, i: nat): (r: seq<int>)
    requires i < |s|
    ensures |r| == |s| - 1
    ensures multiset(s) == multiset(r) + multiset{s[i]}
    ensures forall x :: x in r ==> x in s
    ensures forall x :: x in s && x != s[i] ==> x in r
  {
    assert s == s[..i] + [s[i]] + s[i + 1..];
    s[..i] + s[i + 1..]
  }

  /** `ss.flatMap(s => s)`: the lists one after the other. */
  function Flatten(ss: seq<seq<int>>): (r: seq<int>)
    ensures forall x :: x in r <==> exists k :: 0 <= k < |ss| && x in ss[k]
  {
    if ss == [] then []
    else
      assert forall k :: 1 <= k < |ss| ==> ss[k] == ss[1..][k - 1];
      ss[0] + Flatten(ss[1..])
  }
}
