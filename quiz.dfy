/** The quiz catalog and the answer comparison (sketch.js:46-56, 614-617). */
module Quiz {
  import opened Wrappers
  import opened Seqs

  datatype QuizItem = QuizItem(id: int, question: string, answer: string)

  /** The fixed catalog of nine items (sketch.js:46-56). */
  const QuizBank: seq<QuizItem> := [
    QuizItem(1, "水的化學式是什麼？", "H2O"),
    QuizItem(2, "世界最高的山峰是？", "聖母峰"),
    QuizItem(3, "一公尺等於幾公分？", "100"),
    QuizItem(4, "動漫《七龍珠》主角的名字是？", "悟空"),
    QuizItem(5, "台灣的首都是？", "台北"),
    QuizItem(6, "電腦記憶體簡稱？", "RAM"),
    QuizItem(7, "圓周率近似值？", "3.14"),
    QuizItem(8, "哪種金屬能導電？", "銅"),
    QuizItem(9, "地球繞太陽一圈約幾天？領先", "365")
  ]

  /** The ids of a catalog, in catalog order. */
  function Ids(bank: seq<QuizItem>): (r: seq<int>)
    ensures |r| == |bank|
    ensures forall k :: 0 <= k < |bank| ==> r[k] == bank[k].id
  {
    if bank == [] then [] else [bank[0].id] + Ids(bank[1..])
  }

  /** `quizBank.find(q => q.id === id)`: the first item with that id. */
  function FindItem(bank: seq<QuizItem>, id: int): (r: Option<QuizItem>)
    ensures r.Some? ==> r.value in bank && r.value.id == id
    ensures r.None? <==> id !in Ids(bank)
  {
    if bank == [] then None
    else if bank[0].id == id then Some(bank[0])
    else FindItem(bank[1..], id)
  }

  /** The item found is the first one with that id. */
  lemma {:induction false} FindItemFirst(bank: seq<QuizItem>, id: int)
    ensures FindItem(bank, id).Some? ==>
      exists k :: 0 <= k < |bank| && bank[k] == FindItem(bank, id).value &&
        forall j :: 0 <= j < k ==> bank[j].id != id
  {
    var r := FindItem(bank, id);
    if r.Some? && bank[0].id != id {
      var t := bank[1..];
      FindItemFirst(t, id);
      var k :| 0 <= k < |t| && t[k] == r.value && forall j :: 0 <= j < k ==> t[j].id != id;
      assert bank[k + 1] == r.value;
      forall j | 0 <= j < k + 1
        ensures bank[j].id != id
      {
        if j > 0 {
          assert bank[j] == t[j - 1];
        }
      }
    }
  }

  /** JavaScript's `a % n`, whose result takes the sign of `a` (Dafny's `%`
      is Euclidean and never negative). */
  function JsRem(a: int, n: int): (r: int)
    requires n > 0
    ensures -n < r < n
    ensures a >= 0 ==> r == a % n
    ensures a < 0 ==> r <= 0
  {
    if a >= 0 then a % n else -((-a) % n)
  }

  /** The test `id % 3 === index` of sketch.js:185. */
  function InPartition(index: int): int -> bool
  {
    id => JsRem(id, 3) == index
  }

  /** The test `!list.includes(id)`. */
  function NotIn(list: seq<int>): int -> bool
  {
    id => id !in list
  }

  /** `allQuestions.filter(q => q.id % 3 === index)` as ids (sketch.js:185). */
  function PartitionIds(bank: seq<QuizItem>, index: int): seq<int>
  {
    Filter(Ids(bank), InPartition(index))
  }

  /** `allQuestions.filter(q => !allUsedIds.includes(q.id))` as ids (sketch.js:187). */
  function SupplementIds(bank: seq<QuizItem>, taken: seq<int>): seq<int>
  {
    Filter(Ids(bank), NotIn(taken))
  }

  // --- Answer comparison ---------------------------------------------------

  /** The ASCII whitespace that `String.prototype.trim` removes. */
  predicate IsSpace(c: char)
  {
    c == ' ' || c == '\t' || c == '\n' || c == '\r' || c == '\U{000B}' || c == '\U{000C}'
  }

  ghost predicate AllSpace(s: string)
  {
    forall k :: 0 <= k < |s| ==> IsSpace(s[k])
  }

  /** Neither end of `s` is whitespace. */
  ghost predicate Trimmed(s: string)
  {
    s == [] || (!IsSpace(s[0]) && !IsSpace(s[|s| - 1]))
  }

  /** `s` without its leading whitespace. */
  function TrimStart(s: string): string
  {
    if s != [] && IsSpace(s[0]) then TrimStart(s[1..]) else s
  }

  /** `s` without its trailing whitespace. */
  function TrimEnd(s: string): string
  {
    if s != [] && IsSpace(s[|s| - 1]) then TrimEnd(s[..|s| - 1]) else s
  }

  /** `s.trim()` on ASCII whitespace. */
  function Trim(s: string): string
  {
    TrimEnd(TrimStart(s))
  }

  /** TrimStart removes a whitespace prefix and stops at a non-space. */
  lemma {:induction false} TrimStartFacts(s: string)
    ensures |TrimStart(s)| <= |s| && TrimStart(s) == s[|s| - |TrimStart(s)|..]
    ensures AllSpace(s[..|s| - |TrimStart(s)|])
    ensures TrimStart(s) != [] ==> !IsSpace(TrimStart(s)[0])
    decreases |s|
  {
    if s != [] && IsSpace(s[0]) {
      var r := TrimStart(s[1..]);
      TrimStartFacts(s[1..]);
      assert s[1..][|s| - 1 - |r|..] == s[|s| - |r|..];
      var p, p1 := s[..|s| - |r|], s[1..][..|s| - 1 - |r|];
      assert forall k :: 0 < k < |p| ==> p[k] == p1[k - 1];
    }
  }

  /** TrimEnd removes a whitespace suffix and stops at a non-space. */
  lemma {:induction false} TrimEndFacts(s: string)
    ensures |TrimEnd(s)| <= |s| && TrimEnd(s) == s[..|TrimEnd(s)|]
    ensures AllSpace(s[|TrimEnd(s)|..])
    ensures TrimEnd(s) != [] ==> !IsSpace(TrimEnd(s)[|TrimEnd(s)| - 1])
    decreases |s|
  {
    if s != [] && IsSpace(s[|s| - 1]) {
      var t := s[..|s| - 1];
      var r := TrimEnd(t);
      TrimEndFacts(t);
      assert t[..|r|] == s[..|r|];
      assert forall k :: |r| <= k < |s| - 1 ==> s[k] == t[k];
    }
  }

  /** `s` is whitespace, then Trim(s), then whitespace, and Trim(s) has no
      whitespace at either end. */
  lemma TrimShape(s: string)
    ensures |Trim(s)| <= |TrimStart(s)| <= |s|
    ensures Trimmed(Trim(s))
    ensures var i := |s| - |TrimStart(s)|; var r := Trim(s);
      i + |r| <= |s| && s[i..i + |r|] == r && AllSpace(s[..i]) && AllSpace(s[i + |r|..])
  {
    var t := TrimStart(s);
    var r := TrimEnd(t);
    var i := |s| - |t|;
    TrimStartFacts(s);
    TrimEndFacts(t);
    assert r != [] ==> r[0] == t[0];
    assert s[i..i + |r|] == t[..|r|];
    assert s[i + |r|..] == t[|r|..];
  }

  /** `c.toLowerCase()` on ASCII letters. */
  function LowerChar(c: char): char
  {
    if 'A' <= c <= 'Z' then (c as int + 32) as char else c
  }

  /** `s.toLowerCase()` on ASCII letters. */
  function Lower(s: string): (r: string)
    ensures |r| == |s|
  {
    seq(|s|, k requires 0 <= k < |s| => LowerChar(s[k]))
  }

  /** The test of sketch.js:614-617: the trimmed user text equals the
      stored answer, ignoring case. */
  predicate AnswerMatches(user: string, answer: string)
  {
    Lower(Trim(user)) == Lower(answer)
  }

  lemma {:induction false} TrimStartPadded(p: string, s: string)
    requires AllSpace(p)
    ensures TrimStart(p + s) == TrimStart(s)
    decreases |p|
  {
    if p != [] {
      assert (p + s)[1..] == p[1..] + s;
      TrimStartPadded(p[1..], s);
    } else {
      assert p + s == s;
    }
  }

  lemma {:induction false} TrimEndPadded(s: string, q: string)
    requires AllSpace(q)
    ensures TrimEnd(s + q) == TrimEnd(s)
    decreases |q|
  {
    if q != [] {
      assert (s + q)[..|s + q| - 1] == s + q[..|q| - 1];
      TrimEndPadded(s, q[..|q| - 1]);
    } else {
      assert s + q == s;
    }
  }

  lemma {:induction false} TrimStartAppend(s: string, q: string)
    requires TrimStart(s) != []
    ensures TrimStart(s + q) == TrimStart(s) + q
    decreases |s|
  {
    if IsSpace(s[0]) {
      assert (s + q)[1..] == s[1..] + q;
      TrimStartAppend(s[1..], q);
    }
  }

  /** Whitespace around the text never changes what `trim` returns. */
  lemma TrimPadded(p: string, s: string, q: string)
    requires AllSpace(p) && AllSpace(q)
    ensures Trim(p + s + q) == Trim(s)
  {
    assert p + s + q == p + (s + q);
    TrimStartPadded(p, s + q);
    if TrimStart(s) != [] {
      TrimStartAppend(s, q);
      TrimEndPadded(TrimStart(s), q);
    } else {
      var n := |s|;
      TrimStartFacts(s);
      assert AllSpace(s[..n]) && s[..n] == s;
      var sq := s + q;
      assert AllSpace(sq);
      TrimStartPadded(sq, []);
      assert sq + [] == sq;
    }
  }

  lemma TrimOfTrimmed(t: string)
    requires Trimmed(t)
    ensures Trim(t) == t
  {
    assert TrimStart(t) == t;
  }

  /** An answer is accepted exactly when the user text is the stored answer
      up to ASCII case, with any whitespace around it: every text has that
      shape for t == Trim(text), by TrimShape. */
  lemma PaddedAnswer(p: string, t: string, q: string, answer: string)
    requires AllSpace(p) && AllSpace(q) && Trimmed(t)
    ensures AnswerMatches(p + t + q, answer) <==> Lower(t) == Lower(answer)
  {
    assert Trim(p + t + q) == t by {
      TrimPadded(p, t, q);
      TrimOfTrimmed(t);
    }
  }

  /** Scenario: " 100 " is accepted for the answer "100". */
  lemma PaddedDigitsAccepted()
    ensures AnswerMatches(" 100 ", "100")
  {
    assert " 100 " == " " + "100" + " ";
    PaddedAnswer(" ", "100", " ", "100");
  }

  /** Scenario: "h2o" is accepted for the answer "H2O". */
  lemma LowerCaseAccepted()
    ensures AnswerMatches("h2o", "H2O")
  {
    PaddedAnswer("", "h2o", "", "H2O");
    assert "" + "h2o" + "" == "h2o";
    assert Lower("h2o") == Lower("H2O") by {
      assert Lower("h2o")[0] == Lower("H2O")[0];
    }
  }
}
