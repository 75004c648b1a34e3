/** The question assembler of generateExamFile and the answer key of
    generateAnswersFiles: splitting a question file into its statement and
    alternatives, separating the marked alternative from the distractors,
    inserting it at the sampled position and naming that position with a
    letter. */
module Assembler {
  import opened Numbers
  import opened Results
  import opened Strings
  import opened Shuffling
  import opened Balancer

  /** The marker that opens the alternatives of a question file. */
  const AlternativesSession := "[alternatives]"

  /** The separator between alternatives. */
  const AlternativeSeparator := "//"

  const ChoicePrefix := "\\choice "
  const CorrectPrefix := "\\CorrectChoice "

  datatype AssemblyError =
    | LetterOutOfRange(n: int)
    | MissingQuestionFile(folder: string, name: string)
    | NoAnswerFor(position: nat)
    | NoCorrectAlternative(name: string)

  /** letter(n): chr(65 + n) for 0..4, an error exit otherwise. */
  function Letter(n: int): (r: Result<char, AssemblyError>)
    ensures r.Ok? <==> 0 <= n <= 4
    ensures r.Ok? ==> 'A' <= r.value <= 'E' && r.value as int - 'A' as int == n
    ensures r.Err? ==> r.error == LetterOutOfRange(n)
  {
    if n < 0 || n > 4 then Err(LetterOutOfRange(n)) else Ok((65 + n) as char)
  }

  /** The letter of a drawn answer position, which letter() always accepts. */
  function LetterOf(c: Choice): (l: char)
    ensures Letter(c) == Ok(l)
  {
    Letter(c).value
  }

  /** text[:text.find("[alternatives]")].strip() */
  function Statement(text: string): string
  {
    Strip(SliceTo(text, Find(text, AlternativesSession)))
  }

  /** text[text.find("[alternatives]") + len("[alternatives]"):] */
  function AlternativesBlock(text: string): string
  {
    SliceFrom(text, Find(text, AlternativesSession) + |AlternativesSession|)
  }

  /** With the marker present the text is the statement part, the marker
      and the alternatives; without it find gives -1, so the statement is
      read from all but the last character and the alternatives from
      index 13 on. */
  lemma StatementAndBlock(text: string)
    ensures var i := Find(text, AlternativesSession);
      i >= 0 ==> text == SliceTo(text, i) + AlternativesSession + AlternativesBlock(text)
                 && Statement(text) == Strip(text[..i])
    ensures Find(text, AlternativesSession) == -1 ==>
      && Statement(text) == Strip(if text == [] then [] else text[..|text| - 1])
      && AlternativesBlock(text) == SliceFrom(text, |AlternativesSession| - 1)
  {
    FindSpec(text, AlternativesSession);
    var i := Find(text, AlternativesSession);
    if i >= 0 {
      assert OccursAt(text, AlternativesSession, i);
      assert text == text[..i] + text[i..i + |AlternativesSession|] + text[i + |AlternativesSession|..];
    }
  }

  /** alts_str.split("//") */
  function Pieces(text: string): seq<string>
  {
    Split(AlternativesBlock(text), AlternativeSeparator)
  }

  /** A piece is the right alternative when its stripped form starts with '*'. */
  predicate IsMarked(piece: string)
  {
    StartsWith(Strip(piece), "*")
  }

  /** "\choice " + a.strip() */
  function DistractorOf(piece: string): string
  {
    ChoicePrefix + Strip(piece)
  }

  /** "\CorrectChoice " + a[2:].strip(): two characters are cut from the
      unstripped piece. */
  function CorrectOf(piece: string): string
  {
    CorrectPrefix + Strip(SliceFrom(piece, 2))
  }

  /** alts_final before the shuffle: the distractors in file order. */
  function Distractors(pieces: seq<string>): (r: seq<string>)
    ensures |r| <= |pieces|
    ensures forall d :: d in r <==> exists p :: p in pieces && !IsMarked(p) && d == DistractorOf(p)
  {
    if pieces == [] then []
    else
      var init := Distractors(pieces[..|pieces| - 1]);
      var last := pieces[|pieces| - 1];
      assert forall p :: p in pieces <==> p in pieces[..|pieces| - 1] || p == last;
      init + (if IsMarked(last) then [] else [DistractorOf(last)])
  }

  /** The distractors keep the file order: those of a list are those of
      its front followed by those of its back. */
  lemma {:induction false} DistractorsAppend(a: seq<string>, b: seq<string>)
    ensures Distractors(a + b) == Distractors(a) + Distractors(b)
    decreases |b|
  {
    if b == [] {
      assert a + b == a;
    } else {
      var init := b[..|b| - 1];
      var last := b[|b| - 1];
      var tail := if IsMarked(last) then [] else [DistractorOf(last)];
      assert (a + b)[..|a + b| - 1] == a + init && (a + b)[|a + b| - 1] == last;
      assert Distractors(a + b) == Distractors(a + init) + tail;
      assert Distractors(b) == Distractors(init) + tail;
      DistractorsAppend(a, init);
    }
  }

  /** A single piece gives its own \choice line unless it is the marked one. */
  lemma DistractorsSingle(p: string)
    ensures Distractors([p]) == if IsMarked(p) then [] else [DistractorOf(p)]
  {
    assert [p][..0] == [];
  }

  /** str_alt_right after the pieces: the last marked piece wins, and with
      none marked the value left by the previous question stays. */
  function LastCorrect(pieces: seq<string>, previous: Option<string>): (r: Option<string>)
  {
    if pieces == [] then previous
    else if IsMarked(pieces[|pieces| - 1]) then Some(CorrectOf(pieces[|pieces| - 1]))
    else LastCorrect(pieces[..|pieces| - 1], previous)
  }

  /** With no marked piece LastCorrect keeps the previous value. */
  lemma {:induction false} LastCorrectUnmarked(pieces: seq<string>, previous: Option<string>)
    requires forall k :: 0 <= k < |pieces| ==> !IsMarked(pieces[k])
    ensures LastCorrect(pieces, previous) == previous
    decreases |pieces|
  {
    if pieces != [] {
      var init := pieces[..|pieces| - 1];
      assert !IsMarked(pieces[|pieces| - 1]);
      forall k | 0 <= k < |init| ensures !IsMarked(init[k]) {
        assert init[k] == pieces[k];
      }
      LastCorrectUnmarked(init, previous);
    }
  }

  /** Otherwise the line built from the last marked piece wins. */
  lemma {:induction false} LastCorrectLastMarked(pieces: seq<string>, previous: Option<string>, k: nat)
    requires k < |pieces| && IsMarked(pieces[k])
    requires forall j :: k < j < |pieces| ==> !IsMarked(pieces[j])
    ensures LastCorrect(pieces, previous) == Some(CorrectOf(pieces[k]))
    decreases |pieces|
  {
    if k < |pieces| - 1 {
      var init := pieces[..|pieces| - 1];
      assert !IsMarked(pieces[|pieces| - 1]);
      forall j | k < j < |init| ensures !IsMarked(init[j]) {
        assert init[j] == pieces[j];
      }
      assert init[k] == pieces[k];
      LastCorrectLastMarked(init, previous, k);
    }
  }

  /** The number of marked pieces. */
  function MarkedCount(pieces: seq<string>): nat
  {
    if pieces == [] then 0
    else MarkedCount(pieces[..|pieces| - 1]) + (if IsMarked(pieces[|pieces| - 1]) then 1 else 0)
  }

  /** Every piece is either a distractor or marked. */
  lemma {:induction false} DistractorsCount(pieces: seq<string>)
    ensures |Distractors(pieces)| + MarkedCount(pieces) == |pieces|
    decreases |pieces|
  {
    if pieces != [] {
      DistractorsCount(pieces[..|pieces| - 1]);
    }
  }

  /** The loop at exam.py:570-574 over the pieces of one question. */
  method ParseAlternatives(pieces: seq<string>, previous: Option<string>) returns (alts: seq<string>, right: Option<string>)
    ensures alts == Distractors(pieces)
    ensures right == LastCorrect(pieces, previous)
  {
    alts, right := [], previous;
    var j := 0;
    while j < |pieces|
      invariant 0 <= j <= |pieces|
      invariant alts == Distractors(pieces[..j])
      invariant right == LastCorrect(pieces[..j], previous)
    {
      var a := pieces[j];
      assert pieces[..j + 1][..j] == pieces[..j];
      if IsMarked(a) {
        right := Some(CorrectOf(a));
      } else {
        alts := alts + [DistractorOf(a)];
      }
      j := j + 1;
    }
    assert pieces[..|pieces|] == pieces;
  }

  /** Putting the right alternative in place: appended when the index
      passes the end of the list, inserted before position idx otherwise.
      It ends up at min(idx, number of distractors) and the distractors
      keep their order around it. */
  function InsertCorrect(alts: seq<string>, idx: nat, right: string): (r: seq<string>)
    ensures |r| == |alts| + 1
    ensures r[Min(idx, |alts|)] == right
    ensures r[..Min(idx, |alts|)] + r[Min(idx, |alts|) + 1..] == alts
  {
    if idx > |alts| then alts + [right]
    else
      var r := alts[..idx] + [right] + alts[idx..];
      assert r[..idx] == alts[..idx] && r[idx + 1..] == alts[idx..];
      r
  }

  /** One assembled question: its statement, its alternatives in print
      order and the letter written for it. */
  datatype Assembled = Assembled(name: string, statement: string, choices: seq<string>, letter: char)

  /** One pass of the loop of generateExamFile for a question whose file
      text and drawn answer position are known. Gives the question and the
      str_alt_right the next question inherits: the line of the last marked
      piece, or the inherited one when none is marked. The question has one
      alternative more than the distractors, the right one at
      min(answer, distractors) with a permutation of the distractors around
      it, the stripped statement, and the letter of the drawn answer, which
      names the right alternative's position exactly when the answer did
      not pass the end of the list. */
  function AssembleQuestion(name: string, text: string, answer: Choice, draws: seq<nat>, previous: Option<string>)
    : (r: Result<(Assembled, string), AssemblyError>)
    ensures r.Ok? ==> r.value.0.name == name && r.value.0.letter == LetterOf(answer)
    ensures r.Ok? ==>
      var q := r.value.0;
      var k := |Distractors(Pieces(text))|;
      && |q.choices| == k + 1
      && q.choices[Min(answer, k)] == r.value.1
      && multiset(q.choices[..Min(answer, k)] + q.choices[Min(answer, k) + 1..]) == multiset(Distractors(Pieces(text)))
      && q.statement == Statement(text)
      && q.letter as int - 'A' as int == answer
      && (q.letter as int - 'A' as int == Min(answer, k) <==> answer <= k)
  {
    var pieces := Pieces(text);
    var right := LastCorrect(pieces, previous);
    var shuffled := Shuffle(Distractors(pieces), draws);
    if right.None? then Err(NoCorrectAlternative(name))
    else Ok((Assembled(name, Statement(text), InsertCorrect(shuffled, answer, right.value), LetterOf(answer)), right.value))
  }

  /** The right alternative an assembled question carries, and hands on,
      is the line of its last marked piece, or the inherited one when no
      piece is marked. */
  lemma AssembleQuestionRight(name: string, text: string, answer: Choice, draws: seq<nat>, previous: Option<string>)
    ensures var r := AssembleQuestion(name, text, answer, draws, previous);
      r.Ok? ==> LastCorrect(Pieces(text), previous) == Some(r.value.1)
  {
  }

  /** The right alternative is missing only when no piece is marked and no
      earlier question left one behind. */
  lemma AssembleQuestionFails(name: string, text: string, answer: Choice, draws: seq<nat>, previous: Option<string>)
    ensures AssembleQuestion(name, text, answer, draws, previous).Err? <==>
      previous.None? && forall k :: 0 <= k < |Pieces(text)| ==> !IsMarked(Pieces(text)[k])
  {
    var pieces := Pieces(text);
    assert AssembleQuestion(name, text, answer, draws, previous).Err? <==> LastCorrect(pieces, previous).None?;
    if previous.Some? || exists k :: 0 <= k < |pieces| && IsMarked(pieces[k]) {
      LastCorrectPresent(pieces, previous);
    } else {
      LastCorrectUnmarked(pieces, previous);
    }
  }

  lemma {:induction false} LastCorrectPresent(pieces: seq<string>, previous: Option<string>)
    requires previous.Some? || exists k :: 0 <= k < |pieces| && IsMarked(pieces[k])
    ensures LastCorrect(pieces, previous).Some?
    decreases |pieces|
  {
    if pieces != [] && !IsMarked(pieces[|pieces| - 1]) {
      var init := pieces[..|pieces| - 1];
      assert forall k :: 0 <= k < |init| ==> init[k] == pieces[k];
      LastCorrectPresent(init, previous);
    }
  }

  /** The number of alternatives written with \CorrectChoice. */
  function CorrectMarks(choices: seq<string>): nat
  {
    if choices == [] then 0
    else CorrectMarks(choices[..|choices| - 1]) + (if StartsWith(choices[|choices| - 1], CorrectPrefix) then 1 else 0)
  }

  lemma {:induction false} CorrectMarksAppend(a: seq<string>, b: seq<string>)
    ensures CorrectMarks(a + b) == CorrectMarks(a) + CorrectMarks(b)
    decreases |b|
  {
    if b == [] {
      assert a + b == a;
    } else {
      assert (a + b)[..|a + b| - 1] == a + b[..|b| - 1];
      CorrectMarksAppend(a, b[..|b| - 1]);
    }
  }

  lemma {:induction false} NoCorrectMarks(choices: seq<string>)
    requires forall c :: c in choices ==> StartsWith(c, ChoicePrefix)
    ensures CorrectMarks(choices) == 0
    decreases |choices|
  {
    if choices != [] {
      var last := choices[|choices| - 1];
      assert StartsWith(last, ChoicePrefix);
      assert last[1] == 'c';
      NoCorrectMarks(choices[..|choices| - 1]);
    }
  }

  /** str_alt_right holds a \CorrectChoice line whenever it is set. */
  lemma {:induction false} LastCorrectIsCorrectLine(pieces: seq<string>, previous: Option<string>)
    requires previous.Some? ==> StartsWith(previous.value, CorrectPrefix)
    ensures LastCorrect(pieces, previous).Some? ==> StartsWith(LastCorrect(pieces, previous).value, CorrectPrefix)
    decreases |pieces|
  {
    if pieces != [] && !IsMarked(pieces[|pieces| - 1]) {
      LastCorrectIsCorrectLine(pieces[..|pieces| - 1], previous);
    }
  }

  /** Inserting a \CorrectChoice line among \choice lines gives exactly
      one \CorrectChoice line. */
  lemma InsertOneCorrect(alts: seq<string>, idx: nat, right: string)
    requires forall c :: c in alts ==> StartsWith(c, ChoicePrefix)
    requires StartsWith(right, CorrectPrefix)
    ensures CorrectMarks(InsertCorrect(alts, idx, right)) == 1
  {
    var choices := InsertCorrect(alts, idx, right);
    var p := Min(idx, |alts|);
    assert choices == choices[..p] + [right] + choices[p + 1..];
    assert forall c :: c in choices[..p] + choices[p + 1..] ==> c in alts;
    NoCorrectMarks(choices[..p]);
    NoCorrectMarks(choices[p + 1..]);
    CorrectMarksAppend(choices[..p], [right]);
    CorrectMarksAppend(choices[..p] + [right], choices[p + 1..]);
    assert CorrectMarks([right]) == CorrectMarks([]) + 1 by {
      assert [right][..0] == [];
    }
  }

  /** Exactly one alternative of an assembled question is the correct one. */
  lemma ExactlyOneCorrect(name: string, text: string, answer: Choice, draws: seq<nat>, previous: Option<string>)
    requires previous.Some? ==> StartsWith(previous.value, CorrectPrefix)
    ensures var r := AssembleQuestion(name, text, answer, draws, previous);
      r.Ok? ==> CorrectMarks(r.value.0.choices) == 1 && StartsWith(r.value.1, CorrectPrefix)
  {
    var pieces := Pieces(text);
    var right := LastCorrect(pieces, previous);
    LastCorrectIsCorrectLine(pieces, previous);
    if right.Some? {
      var alts := Distractors(pieces);
      var shuffled := Shuffle(alts, draws);
      forall c | c in shuffled ensures StartsWith(c, ChoicePrefix) {
        assert c in multiset(shuffled);
        assert c in alts;
      }
      InsertOneCorrect(shuffled, answer, right.value);
    }
  }

  /** The alternative at the position the drawn answer names, clamped to
      the end of the list as list.insert clamps it. */
  function RightLine(q: Assembled, answer: Choice): string
  {
    if q.choices == [] then [] else q.choices[Min(answer, |q.choices| - 1)]
  }

  /** What the exam file shows for one question read from text, assembled
      after a question that left previous as str_alt_right: its name and
      stripped statement, one alternative per distractor plus the right
      one, which sits at min(answer, distractors) as the only
      \CorrectChoice line, is the line of the last marked piece (or the
      inherited one when none is marked), and has a permutation of the
      distractors around it, and the drawn letter. */
  predicate WellAssembled(name: string, text: string, answer: Choice, previous: Option<string>, q: Assembled)
  {
    var k := |Distractors(Pieces(text))|;
    && q.name == name && q.statement == Statement(text) && q.letter == LetterOf(answer)
    && |q.choices| == k + 1
    && LastCorrect(Pieces(text), previous) == Some(RightLine(q, answer))
    && StartsWith(q.choices[Min(answer, k)], CorrectPrefix)
    && multiset(q.choices[..Min(answer, k)] + q.choices[Min(answer, k) + 1..]) == multiset(Distractors(Pieces(text)))
    && CorrectMarks(q.choices) == 1
  }

  /** A question assembled after one that left a \CorrectChoice line behind
      (or first of all) is well assembled and leaves its own right line
      behind. */
  lemma AssembleQuestionWell(name: string, text: string, answer: Choice, draws: seq<nat>, previous: Option<string>)
    requires previous.Some? ==> StartsWith(previous.value, CorrectPrefix)
    ensures var r := AssembleQuestion(name, text, answer, draws, previous);
      r.Ok? ==> && WellAssembled(name, text, answer, previous, r.value.0)
                && r.value.1 == RightLine(r.value.0, answer) && StartsWith(r.value.1, CorrectPrefix)
  {
    ExactlyOneCorrect(name, text, answer, draws, previous);
    AssembleQuestionRight(name, text, answer, draws, previous);
  }

  /** A drawn position of 0 puts the right alternative first, whatever the
      shuffle of the distractors. */
  lemma AnswerZeroFirst(name: string, text: string, draws: seq<nat>, previous: Option<string>)
    ensures var r := AssembleQuestion(name, text, 0, draws, previous);
      r.Ok? ==> r.value.0.choices[0] == r.value.1 && r.value.0.letter == 'A'
  {
  }

  /** "Q{i+1} - {letter}" line of the answer key. */
  function AnswerLine(i: nat, c: Choice): string
  {
    "Q" + NatToString(i + 1) + " - " + [LetterOf(c)] + "\n"
  }

  /** The number and the letter can be read back from an answer-key line. */
  lemma AnswerLineReadBack(i: nat, c: Choice)
    ensures var line := AnswerLine(i, c);
      && |line| >= 6 && line[0] == 'Q' && line[|line| - 1] == '\n'
      && DecimalValue(line[1..|line| - 5]) == i + 1
      && line[|line| - 5..|line| - 2] == " - "
      && line[|line| - 2] as int - 'A' as int == c
  {
    var line := AnswerLine(i, c);
    var digits := NatToString(i + 1);
    assert line[1..|line| - 5] == digits;
  }

  /** generateAnswersFiles: the lines of the answer file and the text of
      the horizontal one, a letter and two tabs per question. */
  method AnswerFiles(answers: seq<Choice>) returns (lines: seq<string>, horizontal: string)
    ensures |lines| == |answers|
    ensures forall i :: 0 <= i < |answers| ==> lines[i] == AnswerLine(i, answers[i])
    ensures |horizontal| == 3 * |answers|
    ensures forall i :: 0 <= i < |answers| ==>
      horizontal[3 * i..3 * i + 3] == [LetterOf(answers[i]), '\t', '\t']
  {
    lines, horizontal := [], [];
    var count := 0;
    while count < |answers|
      invariant 0 <= count <= |answers|
      invariant |lines| == count && forall i :: 0 <= i < count ==> lines[i] == AnswerLine(i, answers[i])
    {
      lines := lines + [AnswerLine(count, answers[count])];
      count := count + 1;
    }
    count := 0;
    while count < |answers|
      invariant 0 <= count <= |answers|
      invariant |horizontal| == 3 * count
      invariant forall i :: 0 <= i < count ==> horizontal[3 * i..3 * i + 3] == [LetterOf(answers[i]), '\t', '\t']
    {
      var cell := [LetterOf(answers[count]), '\t', '\t'];
      assert forall i :: 0 <= i < count ==> (horizontal + cell)[3 * i..3 * i + 3] == horizontal[3 * i..3 * i + 3];
      horizontal := horizontal + cell;
      assert horizontal[3 * count..3 * count + 3] == cell;
      count := count + 1;
    }
  }
}
