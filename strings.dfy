/** Python's str operations as the exam generator uses them: whitespace
    stripping, prefix and suffix tests, find, slicing with Python's index
    rules, split on a separator, and str() of a natural number. */
module Strings {

  /** str.isspace() for one character: the characters Python strips with
      a bare strip(). */
  predicate IsSpace(c: char)
  {
    var n := c as int;
    (9 <= n <= 13) || (28 <= n <= 32) || n == 0x85 || n == 0xA0 || n == 0x1680
    || (0x2000 <= n <= 0x200A) || n == 0x2028 || n == 0x2029 || n == 0x202F
    || n == 0x205F || n == 0x3000
  }

  predicate AllSpace(s: string)
  {
    forall i :: 0 <= i < |s| ==> IsSpace(s[i])
  }

  /** The number of whitespace characters that open s. */
  function LeadingSpace(s: string): (k: nat)
    ensures k <= |s| && AllSpace(s[..k])
    ensures k == |s| || !IsSpace(s[k])
  {
    if s != [] && IsSpace(s[0]) then
      var k := 1 + LeadingSpace(s[1..]);
      assert forall t :: 1 <= t < k ==> s[..k][t] == s[1..][..k - 1][t - 1];
      k
    else 0
  }

  /** Where the whitespace that closes s begins. */
  function TrailingSpace(s: string): (k: nat)
    ensures k <= |s| && AllSpace(s[k..])
    ensures k == 0 || !IsSpace(s[k - 1])
  {
    if s != [] && IsSpace(s[|s| - 1]) then
      var k := TrailingSpace(s[..|s| - 1]);
      assert forall t :: 0 <= t < |s| - 1 - k ==> s[k..][t] == s[..|s| - 1][k..][t];
      k
    else |s|
  }

  /** s.strip(): the slice of s left after removing whitespace at both ends. */
  function Strip(s: string): (r: string)
  {
    var t := s[LeadingSpace(s)..];
    t[..TrailingSpace(t)]
  }

  /** What strip() leaves: a contiguous slice of s, bordered by whitespace
      only, that neither begins nor ends with whitespace. */
  lemma StripShape(s: string) returns (i: nat, j: nat)
    ensures 0 <= i <= j <= |s| && Strip(s) == s[i..j]
    ensures AllSpace(s[..i]) && AllSpace(s[j..])
    ensures Strip(s) == [] || (!IsSpace(Strip(s)[0]) && !IsSpace(Strip(s)[|Strip(s)| - 1]))
  {
    i := LeadingSpace(s);
    var t := s[i..];
    var k := TrailingSpace(t);
    j := i + k;
    assert t[..k] == s[i..j];
    assert t[k..] == s[j..];
    if k > 0 {
      assert k == |t| || TrailingSpace(t) == k;
      assert Strip(s)[0] == s[i];
    }
  }

  /** strip() is idempotent. */
  lemma StripIdempotent(s: string)
    ensures Strip(Strip(s)) == Strip(s)
  {
    var r := Strip(s);
    var i, j := StripShape(s);
    if r != [] {
      assert LeadingSpace(r) == 0;
      assert TrailingSpace(r) == |r|;
      assert r[0..] == r;
    }
  }

  /** s.startswith(p) */
  predicate StartsWith(s: string, p: string)
  {
    |p| <= |s| && s[..|p|] == p
  }

  /** s.endswith(p) */
  predicate EndsWith(s: string, p: string)
  {
    |p| <= |s| && s[|s| - |p|..] == p
  }

  /** removeSuffix(s, suf): `s[:-len(suf)]` when s ends with suf, else s.
      With an empty suffix Python's `s[:-0]` is `s[:0]`, the empty string. */
  function RemoveSuffix(s: string, suf: string): (r: string)
    ensures !EndsWith(s, suf) ==> r == s
    ensures EndsWith(s, suf) && suf != [] ==> r + suf == s
    ensures suf == [] ==> r == []
  {
    if !EndsWith(s, suf) then s
    else if |suf| == 0 then []
    else s[..|s| - |suf|]
  }

  /** `sub` occurs in `s` starting at index k. */
  predicate OccursAt(s: string, sub: string, k: int)
  {
    0 <= k && k + |sub| <= |s| && s[k..k + |sub|] == sub
  }

  function FindFrom(s: string, sub: string, i: nat): (r: int)
    requires i <= |s|
    ensures r == -1 || (i <= r && OccursAt(s, sub, r))
    ensures forall k :: i <= k && (r == -1 || k < r) ==> !OccursAt(s, sub, k)
    decreases |s| - i
  {
    if i + |sub| > |s| then -1
    else if s[i..i + |sub|] == sub then i
    else if i == |s| then -1
    else FindFrom(s, sub, i + 1)
  }

  /** s.find(sub): the lowest index at which sub occurs, or -1. */
  function Find(s: string, sub: string): (r: int)
    ensures -1 <= r <= |s|
  {
    FindFrom(s, sub, 0)
  }

  /** Both directions of find's promise. */
  lemma FindSpec(s: string, sub: string)
    ensures Find(s, sub) == -1 <==> forall k :: !OccursAt(s, sub, k)
    ensures Find(s, sub) != -1 ==>
      OccursAt(s, sub, Find(s, sub)) && forall k :: 0 <= k < Find(s, sub) ==> !OccursAt(s, sub, k)
  {
  }

  /** Python's normalisation of a slice bound k for a sequence of length n. */
  function SliceIndex(k: int, n: nat): (r: nat)
    ensures r <= n
    ensures 0 <= k <= n ==> r == k
    ensures k < 0 && -k <= n ==> r == n + k
    ensures k > n ==> r == n
    ensures k + n < 0 ==> r == 0
  {
    if k < 0 then (if k + n < 0 then 0 else k + n)
    else if k > n then n
    else k
  }

  /** s[:k] */
  function SliceTo(s: string, k: int): (r: string)
    ensures r == s[..SliceIndex(k, |s|)]
  {
    s[..SliceIndex(k, |s|)]
  }

  /** s[k:] */
  function SliceFrom(s: string, k: int): (r: string)
    ensures r == s[SliceIndex(k, |s|)..]
  {
    s[SliceIndex(k, |s|)..]
  }

  /** s.split(sep) for a non-empty separator: cut at every leftmost,
      non-overlapping occurrence of sep. */
  function Split(s: string, sep: string): (r: seq<string>)
    requires sep != []
    ensures |r| >= 1
    decreases |s|
  {
    var i := Find(s, sep);
    if i < 0 then [s]
    else [s[..i]] + Split(s[i + |sep|..], sep)
  }

  /** sep.join(pieces) */
  function Join(pieces: seq<string>, sep: string): string
  {
    if |pieces| == 0 then []
    else if |pieces| == 1 then pieces[0]
    else pieces[0] + sep + Join(pieces[1..], sep)
  }

  /** Joining the pieces of a split gives back the string. */
  lemma {:induction false} SplitJoin(s: string, sep: string)
    requires sep != []
    ensures Join(Split(s, sep), sep) == s
    decreases |s|
  {
    var i := Find(s, sep);
    if i >= 0 {
      var rest := s[i + |sep|..];
      SplitJoin(rest, sep);
      JoinCons(s[..i], Split(rest, sep), sep);
      CutAt(s, sep, i);
    }
  }

  lemma JoinCons(head: string, tail: seq<string>, sep: string)
    requires |tail| >= 1
    ensures Join([head] + tail, sep) == head + sep + Join(tail, sep)
  {
    assert ([head] + tail)[1..] == tail;
  }

  lemma CutAt(s: string, sub: string, i: int)
    requires OccursAt(s, sub, i)
    ensures s == s[..i] + sub + s[i + |sub|..]
  {
    assert s == s[..i] + s[i..i + |sub|] + s[i + |sub|..];
  }

  /** No piece of a split contains the separator. */
  lemma {:induction false} SplitPiecesFree(s: string, sep: string)
    requires sep != []
    ensures forall p :: p in Split(s, sep) ==> Find(p, sep) == -1
    decreases |s|
  {
    var i := Find(s, sep);
    if i < 0 {
      assert Split(s, sep) == [s];
    } else {
      var rest := s[i + |sep|..];
      SplitPiecesFree(rest, sep);
      BeforeFirstFree(s, sep);
      assert Split(s, sep) == [s[..i]] + Split(rest, sep);
    }
  }

  /** The cuts are the leftmost ones: every piece but the last, followed by
      the separator, holds its first occurrence right after the piece. */
  lemma {:induction false} SplitLeftmost(s: string, sep: string)
    requires sep != []
    ensures var r := Split(s, sep);
      forall i :: 0 <= i < |r| - 1 ==> Find(r[i] + sep, sep) == |r[i]|
    decreases |s|
  {
    var i := Find(s, sep);
    if i >= 0 {
      var rest := s[i + |sep|..];
      SplitLeftmost(rest, sep);
      FirstCut(s, sep);
      var r := Split(s, sep);
      assert r == [s[..i]] + Split(rest, sep);
      assert forall k :: 1 <= k < |r| ==> r[k] == Split(rest, sep)[k - 1];
    }
  }

  /** The head of a split followed by the separator has its first
      occurrence at its end. */
  lemma FirstCut(s: string, sep: string)
    requires sep != [] && Find(s, sep) >= 0
    ensures Find(s[..Find(s, sep)] + sep, sep) == Find(s, sep)
  {
    FindSpec(s, sep);
    var i := Find(s, sep);
    var t := s[..i] + sep;
    CutAt(s, sep, i);
    assert t == s[..i + |sep|];
    forall k | 0 <= k < i ensures !OccursAt(t, sep, k) {
      assert !OccursAt(s, sep, k);
      assert k + |sep| <= |t| ==> t[k..k + |sep|] == s[k..k + |sep|];
    }
    assert t[i..i + |sep|] == sep;
    assert OccursAt(t, sep, i);
    FindSpec(t, sep);
  }

  /** The text before the first occurrence holds no occurrence. */
  lemma BeforeFirstFree(s: string, sep: string)
    requires sep != [] && Find(s, sep) >= 0
    ensures Find(s[..Find(s, sep)], sep) == -1
  {
    FindSpec(s, sep);
    var i := Find(s, sep);
    var head := s[..i];
    forall k ensures !OccursAt(head, sep, k) {
      if OccursAt(head, sep, k) {
        assert head[k..k + |sep|] == s[k..k + |sep|];
        assert OccursAt(s, sep, k);
      }
    }
    FindSpec(head, sep);
  }

  /** The decimal digit for 0..9. */
  function Digit(d: nat): (c: char)
    requires d < 10
    ensures '0' <= c <= '9'
  {
    ('0' as int + d) as char
  }

  /** The value a string of decimal digits spells. */
  function DecimalValue(s: string): int
  {
    if s == [] then 0 else 10 * DecimalValue(s[..|s| - 1]) + (s[|s| - 1] as int - '0' as int)
  }

  /** str(n) for a natural number: no leading zeros, digits only. */
  function NatToString(n: nat): (r: string)
    ensures |r| >= 1 && (forall i :: 0 <= i < |r| ==> '0' <= r[i] <= '9')
    ensures |r| > 1 ==> r[0] != '0'
    ensures DecimalValue(r) == n
  {
    if n < 10 then [Digit(n)]
    else
      var h := NatToString(n / 10);
      var r := h + [Digit(n % 10)];
      assert r[..|r| - 1] == h;
      r
  }
}
