/** The answer balancer of generateCorrectAnswers: a draw of one letter
    index per question is accepted only when the most and the least
    frequent of the five letters differ by at most the configured
    tolerance (balanced_questions); otherwise the whole draw is thrown
    away and drawn again. */
module Balancer {
  import opened Results

  /** The population of random.choices: the answer positions 0..4 (A-E). */
  type Choice = x: int | 0 <= x < 5

  /** How many times v occurs in the draw (answers.count(v)). */
  function Occurrences(a: seq<Choice>, v: Choice): nat
  {
    multiset(a)[v]
  }

  /** The five counts add up to the number of draws. */
  lemma {:induction false} CountsSum(a: seq<Choice>)
    ensures Occurrences(a, 0) + Occurrences(a, 1) + Occurrences(a, 2) + Occurrences(a, 3) + Occurrences(a, 4) == |a|
  {
    if a != [] {
      var init := a[..|a| - 1];
      CountsSum(init);
      assert a == init + [a[|a| - 1]];
      assert multiset(a) == multiset(init) + multiset{a[|a| - 1]};
    }
  }

  /** The five counts [answers.count(0), ..., answers.count(4)]: one per
      letter, together accounting for every draw. */
  function Counts(a: seq<Choice>): (c: seq<nat>)
    ensures |c| == 5 && forall v: Choice :: c[v] == Occurrences(a, v)
    ensures c[0] + c[1] + c[2] + c[3] + c[4] == |a|
  {
    CountsSum(a);
    [Occurrences(a, 0), Occurrences(a, 1), Occurrences(a, 2), Occurrences(a, 3), Occurrences(a, 4)]
  }

  /** max(s) of a non-empty list. */
  function MaxOf(s: seq<int>): int
    requires |s| > 0
  {
    if |s| == 1 then s[0]
    else
      var m := MaxOf(s[1..]);
      if s[0] < m then m else s[0]
  }

  /** min(s) of a non-empty list. */
  function MinOf(s: seq<int>): int
    requires |s| > 0
  {
    if |s| == 1 then s[0]
    else
      var m := MinOf(s[1..]);
      if s[0] < m then s[0] else m
  }

  /** max is attained and bounds every element. */
  lemma {:induction false} MaxOfBounds(s: seq<int>) returns (i: nat)
    requires |s| > 0
    ensures i < |s| && s[i] == MaxOf(s)
    ensures forall k :: 0 <= k < |s| ==> s[k] <= MaxOf(s)
  {
    if |s| == 1 {
      i := 0;
    } else {
      var t := s[1..];
      var j := MaxOfBounds(t);
      assert s[j + 1] == t[j];
      i := if s[0] < MaxOf(t) then j + 1 else 0;
      forall k | 1 <= k < |s| ensures s[k] <= MaxOf(s) {
        assert s[k] == t[k - 1];
      }
    }
  }

  /** min is attained and bounds every element. */
  lemma {:induction false} MinOfBounds(s: seq<int>) returns (i: nat)
    requires |s| > 0
    ensures i < |s| && s[i] == MinOf(s)
    ensures forall k :: 0 <= k < |s| ==> MinOf(s) <= s[k]
  {
    if |s| == 1 {
      i := 0;
    } else {
      var t := s[1..];
      var j := MinOfBounds(t);
      assert s[j + 1] == t[j];
      i := if s[0] < MinOf(t) then 0 else j + 1;
      forall k | 1 <= k < |s| ensures MinOf(s) <= s[k] {
        assert s[k] == t[k - 1];
      }
    }
  }

  /** max and min are attained and bound every element. */
  lemma MaxMinOf(s: seq<int>)
    requires |s| > 0
    ensures (exists k :: 0 <= k < |s| && s[k] == MaxOf(s)) && forall k :: 0 <= k < |s| ==> s[k] <= MaxOf(s)
    ensures (exists k :: 0 <= k < |s| && s[k] == MinOf(s)) && forall k :: 0 <= k < |s| ==> MinOf(s) <= s[k]
  {
    var i := MaxOfBounds(s);
    var j := MinOfBounds(s);
  }

  /** The acceptance test: max(count) - min(count) <= balanced_questions. */
  predicate Balanced(a: seq<Choice>, tolerance: int)
  {
    MaxOf(Counts(a)) - MinOf(Counts(a)) <= tolerance
  }

  /** The acceptance test read letter by letter: every pair of letter
      counts differs by at most the tolerance. */
  lemma BalancedPairwise(a: seq<Choice>, tolerance: int)
    ensures Balanced(a, tolerance) <==>
      forall v: Choice, w: Choice :: Occurrences(a, v) - Occurrences(a, w) <= tolerance
  {
    var c := Counts(a);
    MaxMinOf(c);
    if forall v: Choice, w: Choice :: Occurrences(a, v) - Occurrences(a, w) <= tolerance {
      var i :| 0 <= i < 5 && c[i] == MaxOf(c);
      var j :| 0 <= j < 5 && c[j] == MinOf(c);
      assert Occurrences(a, i) - Occurrences(a, j) <= tolerance;
    }
  }

  /** k = countExamQuestions draws; random.choices gives none for k <= 0. */
  function DrawLength(k: int): nat
  {
    if k < 0 then 0 else k
  }

  /** The index of the first balanced draw from i on, |attempts| if none. */
  function FirstBalancedFrom(attempts: seq<seq<Choice>>, tolerance: int, i: nat): (k: nat)
    requires i <= |attempts|
    ensures i <= k <= |attempts|
    ensures k < |attempts| ==> Balanced(attempts[k], tolerance)
    ensures forall j :: i <= j < k ==> !Balanced(attempts[j], tolerance)
    decreases |attempts| - i
  {
    if i == |attempts| || Balanced(attempts[i], tolerance) then i
    else FirstBalancedFrom(attempts, tolerance, i + 1)
  }

  /** The retry loop over the draws supplied for it: the first balanced
      draw is accepted, whole; None when every supplied draw was rejected. */
  function FirstBalanced(attempts: seq<seq<Choice>>, tolerance: int): (r: Option<seq<Choice>>)
    ensures r.None? <==> forall k :: 0 <= k < |attempts| ==> !Balanced(attempts[k], tolerance)
    ensures r.Some? ==> Balanced(r.value, tolerance)
    ensures r.Some? ==>
              exists k :: 0 <= k < |attempts| && attempts[k] == r.value &&
                          forall j :: 0 <= j < k ==> !Balanced(attempts[j], tolerance)
  {
    var k := FirstBalancedFrom(attempts, tolerance, 0);
    if k < |attempts| then Some(attempts[k]) else None
  }

  /** With tolerance 0 every letter is the correct answer equally often,
      so the number of questions must be a multiple of five. */
  lemma ZeroToleranceEven(a: seq<Choice>)
    requires Balanced(a, 0)
    ensures forall v: Choice :: 5 * Occurrences(a, v) == |a|
  {
    BalancedPairwise(a, 0);
    CountsSum(a);
    assert forall v: Choice :: Occurrences(a, v) == Occurrences(a, 0);
  }

  /** A tolerance of at least the number of draws accepts every draw. */
  lemma WideToleranceAcceptsAll(a: seq<Choice>, tolerance: int)
    requires tolerance >= |a|
    ensures Balanced(a, tolerance)
  {
    CountsSum(a);
    BalancedPairwise(a, tolerance);
  }

  /** Ten questions with tolerance 0: exactly two of each letter. */
  lemma TenQuestionsZeroTolerance(a: seq<Choice>)
    requires |a| == 10 && Balanced(a, 0)
    ensures forall v: Choice :: Occurrences(a, v) == 2
  {
    ZeroToleranceEven(a);
  }
}
