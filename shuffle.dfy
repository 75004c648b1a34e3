/** random.shuffle with its randomness supplied: Python shuffles a list in
    place by the Fisher-Yates method, walking i from the last index down
    to 1 and swapping x[i] with x[j] for a j drawn from 0..i. Here the j's
    come from a list of draws, each taken modulo i + 1; once the draws run
    out the remaining steps swap nothing. */
module Shuffling {

  /** x[i], x[j] = x[j], x[i] */
  function Swap<T>(s: seq<T>, i: nat, j: nat): (r: seq<T>)
    requires i < |s| && j < |s|
    ensures |r| == |s| && r[i] == s[j] && r[j] == s[i]
    ensures forall k :: 0 <= k < |s| && k != i && k != j ==> r[k] == s[k]
    ensures multiset(r) == multiset(s)
  {
    s[i := s[j]][j := s[i]]
  }

  /** The draw used at step i, reduced into 0..i. */
  function Pick(draws: seq<nat>, i: nat): (j: nat)
    ensures j <= i
  {
    if draws == [] then i else draws[0] % (i + 1)
  }

  /** The Fisher-Yates steps for positions i, i - 1, ..., 1. */
  function Steps<T>(s: seq<T>, i: nat, draws: seq<nat>): (r: seq<T>)
    requires i < |s|
    ensures |r| == |s| && multiset(r) == multiset(s)
    decreases i
  {
    if i == 0 then s
    else Steps(Swap(s, i, Pick(draws, i)), i - 1, if draws == [] then [] else draws[1..])
  }

  /** random.shuffle(s) driven by the given draws. */
  function Shuffle<T>(s: seq<T>, draws: seq<nat>): (r: seq<T>)
    ensures |r| == |s| && multiset(r) == multiset(s)
  {
    if |s| == 0 then s else Steps(s, |s| - 1, draws)
  }
}
