/** The generation run: the state the class Exam holds while an exam is
    generated (quantities, allQuestions, countExamQuestions, questions,
    correctAnswers) and the steps of generateExam that fill it in. The
    configuration, the folder listings, the question files and every
    random draw are parameters. */
module ExamGeneration {
  import opened Results
  import opened Strings
  import opened Shuffling
  import opened Restrictions
  import opened Selection
  import opened SelectionProperties
  import opened Balancer
  import opened Assembler

  /** Exam.allQuestions and Exam.quantities paired up as plans. */
  function Zip(pools: seq<seq<QuestionRef>>, quants: seq<int>): (r: seq<PoolPlan>)
    requires |pools| == |quants|
    ensures |r| == |pools| && forall k :: 0 <= k < |r| ==> r[k] == PoolPlan(pools[k], quants[k])
  {
    seq(|pools|, k requires 0 <= k < |pools| => PoolPlan(pools[k], quants[k]))
  }

  /** Appending a pool and its quantity appends one plan. */
  lemma ZipAppend(pools: seq<seq<QuestionRef>>, quants: seq<int>, pool: seq<QuestionRef>, quant: int)
    requires |pools| == |quants| && Bounded(Zip(pools, quants)) && quant <= |pool|
    ensures Zip(pools + [pool], quants + [quant]) == Zip(pools, quants) + [PoolPlan(pool, quant)]
    ensures Bounded(Zip(pools + [pool], quants + [quant]))
    ensures Total(Zip(pools + [pool], quants + [quant])) == Total(Zip(pools, quants)) + quant
  {
    var z := Zip(pools, quants) + [PoolPlan(pool, quant)];
    assert z[..|z| - 1] == Zip(pools, quants);
  }

  function PoolsOf(plans: seq<PoolPlan>): (r: seq<seq<QuestionRef>>)
    ensures |r| == |plans| && forall k :: 0 <= k < |r| ==> r[k] == plans[k].pool
  {
    seq(|plans|, k requires 0 <= k < |plans| => plans[k].pool)
  }

  function QuantsOf(plans: seq<PoolPlan>): (r: seq<int>)
    ensures |r| == |plans| && forall k :: 0 <= k < |r| ==> r[k] == plans[k].quant
  {
    seq(|plans|, k requires 0 <= k < |plans| => plans[k].quant)
  }

  /** Zip has PoolsOf and QuantsOf as its inverses. */
  lemma ZipInverse(pools: seq<seq<QuestionRef>>, quants: seq<int>)
    requires |pools| == |quants|
    ensures PoolsOf(Zip(pools, quants)) == pools && QuantsOf(Zip(pools, quants)) == quants
  {
  }

  /** The successful path of generateQuestions, step by step. */
  lemma GenerateQuestionsPath(catalog: map<string, seq<DirEntry>>, requests: seq<FolderRequest>,
                              groups: seq<seq<string>>, poolDraws: seq<seq<nat>>, finalDraws: seq<nat>,
                              plans: seq<PoolPlan>)
    requires MakePlan(catalog, requests) == Ok(plans)
    ensures var g := Selection.GenerateQuestions(catalog, requests, groups, poolDraws, finalDraws);
      var shuffled := ShufflePools(plans, poolDraws);
      var picked := Select(groups, [], shuffled);
      && (Total(plans) == 0 ==> g == Err(NoQuestions))
      && (Total(plans) != 0 && |picked| < Total(plans) ==> g == Err(Insufficient(Total(plans), |picked|)))
      && (Total(plans) != 0 && |picked| >= Total(plans) ==>
            g == Ok(Generated(shuffled, Total(plans), Shuffle(picked, finalDraws))))
  {
  }

  /** The loop of generateExamFile from question `count` on, with the
      questions already assembled in acc and str_alt_right as previous.
      A missing question file stops it; so does a question past the end of
      correctAnswers (an IndexError) and a question with no right
      alternative to use (str_alt_right never set). */
  function AssembleFrom(questions: seq<QuestionRef>, answers: seq<Choice>, texts: map<(string, string), string>,
                        draws: seq<seq<nat>>, count: nat, previous: Option<string>, acc: seq<Assembled>)
    : (r: Result<seq<Assembled>, AssemblyError>)
    requires count <= |questions| && count <= |answers| && |acc| == count
    ensures r.Ok? ==> |r.value| == |questions| && |questions| <= |answers| && r.value[..count] == acc
    ensures r.Ok? ==> forall k :: count <= k < |questions| ==>
      r.value[k].name == questions[k].name && r.value[k].letter == LetterOf(answers[k])
    decreases |questions| - count
  {
    if count == |questions| then Ok(acc)
    else
      var q := questions[count];
      if (q.folder, q.name) !in texts then Err(MissingQuestionFile(q.folder, q.name))
      else if count >= |answers| then Err(NoAnswerFor(count))
      else
        match AssembleQuestion(q.name, texts[(q.folder, q.name)], answers[count], DrawsAt(draws, count), previous)
        case Err(e) => Err(e)
        case Ok(done) =>
          var acc' := acc + [done.0];
          var r := AssembleFrom(questions, answers, texts, draws, count + 1, Some(done.1), acc');
          assert r.Ok? ==> r.value[..count] == r.value[..count + 1][..count];
          assert r.Ok? ==> r.value[count] == r.value[..count + 1][count] == done.0;
          r
  }

  /** The str_alt_right that question k of a run starting at `count` with
      `previous` inherits: `previous` itself for the first question, and the
      right line of question k - 1 after that. */
  function CarriedInto(previous: Option<string>, out: seq<Assembled>, answers: seq<Choice>, count: nat, k: nat): Option<string>
  {
    if k <= count || k > |out| || k > |answers| then previous else Some(RightLine(out[k - 1], answers[k - 1]))
  }

  /** One step of the loop: when the rest of the run succeeds, question
      `count` has a file and an answer, and the run goes on from it with
      its right line, a \CorrectChoice line, as str_alt_right. */
  lemma AssembleFromStep(questions: seq<QuestionRef>, answers: seq<Choice>, texts: map<(string, string), string>,
                         draws: seq<seq<nat>>, count: nat, previous: Option<string>, acc: seq<Assembled>)
      returns (done: Assembled, right: string)
    requires count < |questions| && count <= |answers| && |acc| == count
    requires previous.Some? ==> StartsWith(previous.value, CorrectPrefix)
    requires AssembleFrom(questions, answers, texts, draws, count, previous, acc).Ok?
    ensures (questions[count].folder, questions[count].name) in texts && count < |answers|
    ensures right == RightLine(done, answers[count]) && StartsWith(right, CorrectPrefix)
    ensures AssembleFrom(questions, answers, texts, draws, count, previous, acc).value[count] == done
    ensures AssembleFrom(questions, answers, texts, draws, count, previous, acc)
         == AssembleFrom(questions, answers, texts, draws, count + 1, Some(right), acc + [done])
  {
    var q := questions[count];
    var text := texts[(q.folder, q.name)];
    var a := AssembleQuestion(q.name, text, answers[count], DrawsAt(draws, count), previous);
    AssembleQuestionWell(q.name, text, answers[count], DrawsAt(draws, count), previous);
    done, right := a.value.0, a.value.1;
    var out := AssembleFrom(questions, answers, texts, draws, count, previous, acc).value;
    assert out[count] == out[..count + 1][count];
  }

  /** The first question of a run of the loop is well assembled after the
      str_alt_right the run starts from. */
  lemma AssembleFromFirst(questions: seq<QuestionRef>, answers: seq<Choice>, texts: map<(string, string), string>,
                          draws: seq<seq<nat>>, count: nat, previous: Option<string>, acc: seq<Assembled>)
    requires count < |questions| && count <= |answers| && |acc| == count
    requires previous.Some? ==> StartsWith(previous.value, CorrectPrefix)
    requires AssembleFrom(questions, answers, texts, draws, count, previous, acc).Ok?
    ensures (questions[count].folder, questions[count].name) in texts && count < |answers|
    ensures WellAssembled(questions[count].name, texts[(questions[count].folder, questions[count].name)], answers[count],
                          previous, AssembleFrom(questions, answers, texts, draws, count, previous, acc).value[count])
  {
    var q := questions[count];
    var text := texts[(q.folder, q.name)];
    AssembleQuestionWell(q.name, text, answers[count], DrawsAt(draws, count), previous);
    var out := AssembleFrom(questions, answers, texts, draws, count, previous, acc).value;
    assert out[count] == out[..count + 1][count];
  }

  /** Question k of a run of the loop is well assembled after the
      str_alt_right it inherits, given that the one the run starts from is
      unset or a \CorrectChoice line. */
  lemma {:induction false} AssembleFromAt(questions: seq<QuestionRef>, answers: seq<Choice>, texts: map<(string, string), string>,
                                          draws: seq<seq<nat>>, count: nat, previous: Option<string>, acc: seq<Assembled>, k: nat)
    requires count <= k < |questions| && count <= |answers| && |acc| == count
    requires previous.Some? ==> StartsWith(previous.value, CorrectPrefix)
    ensures var r := AssembleFrom(questions, answers, texts, draws, count, previous, acc);
      r.Ok? ==> (questions[k].folder, questions[k].name) in texts && k < |answers|
                && WellAssembled(questions[k].name, texts[(questions[k].folder, questions[k].name)], answers[k],
                                 CarriedInto(previous, r.value, answers, count, k), r.value[k])
    decreases k - count
  {
    var r := AssembleFrom(questions, answers, texts, draws, count, previous, acc);
    if r.Ok? {
      if k == count {
        AssembleFromFirst(questions, answers, texts, draws, count, previous, acc);
        assert CarriedInto(previous, r.value, answers, count, k) == previous;
      } else {
        var done, right := AssembleFromStep(questions, answers, texts, draws, count, previous, acc);
        AssembleFromAt(questions, answers, texts, draws, count + 1, Some(right), acc + [done], k);
        assert CarriedInto(Some(right), r.value, answers, count + 1, k) == CarriedInto(previous, r.value, answers, count, k);
      }
    }
  }

  /** Every question of an assembled exam is well assembled: the first with
      nothing inherited, every later one after the right line of the
      question before it. */
  lemma AssembleExamWell(questions: seq<QuestionRef>, answers: seq<Choice>, texts: map<(string, string), string>,
                         draws: seq<seq<nat>>)
    ensures var r := AssembleFrom(questions, answers, texts, draws, 0, None, []);
      r.Ok? ==> forall k :: 0 <= k < |questions| ==>
        && (questions[k].folder, questions[k].name) in texts
        && WellAssembled(questions[k].name, texts[(questions[k].folder, questions[k].name)], answers[k],
                         CarriedInto(None, r.value, answers, 0, k), r.value[k])
  {
    var r := AssembleFrom(questions, answers, texts, draws, 0, None, []);
    if r.Ok? {
      forall k | 0 <= k < |questions|
        ensures (questions[k].folder, questions[k].name) in texts
        ensures WellAssembled(questions[k].name, texts[(questions[k].folder, questions[k].name)], answers[k],
                              CarriedInto(None, r.value, answers, 0, k), r.value[k])
      {
        AssembleFromAt(questions, answers, texts, draws, 0, None, [], k);
      }
    }
  }

  /** generateExamFile over the chosen questions, without the LaTeX text. */
  function AssembleExam(questions: seq<QuestionRef>, answers: seq<Choice>, texts: map<(string, string), string>,
                        draws: seq<seq<nat>>): (r: Result<seq<Assembled>, AssemblyError>)
    ensures r.Ok? ==> |r.value| == |questions| && |questions| <= |answers|
    ensures r.Ok? ==> forall k :: 0 <= k < |questions| ==>
      && (questions[k].folder, questions[k].name) in texts
      && WellAssembled(questions[k].name, texts[(questions[k].folder, questions[k].name)], answers[k],
                       CarriedInto(None, r.value, answers, 0, k), r.value[k])
  {
    AssembleExamWell(questions, answers, texts, draws);
    AssembleFrom(questions, answers, texts, draws, 0, None, [])
  }

  /** The answer key and the exam agree: line i of the answer file carries
      the letter written in question i. */
  lemma AnswerKeyMatchesExam(questions: seq<QuestionRef>, answers: seq<Choice>, texts: map<(string, string), string>,
                             draws: seq<seq<nat>>, i: nat)
    requires AssembleExam(questions, answers, texts, draws).Ok? && i < |questions|
    ensures AnswerLine(i, answers[i]) ==
      "Q" + NatToString(i + 1) + " - " + [AssembleExam(questions, answers, texts, draws).value[i].letter] + "\n"
  {
  }

  /** A run that gets through every step chose exactly countExamQuestions
      questions (none when the counts add up to less than zero): the walk
      gives at least that many, the answer list holds that many, and a
      question past its end would have stopped the exam file. */
  lemma CompleteRunIsExact(catalog: map<string, seq<DirEntry>>, requests: seq<FolderRequest>,
                           groups: seq<seq<string>>, poolDraws: seq<seq<nat>>, finalDraws: seq<nat>,
                           attempts: seq<seq<Choice>>, tolerance: int,
                           texts: map<(string, string), string>, draws: seq<seq<nat>>)
    requires GenerateQuestions(catalog, requests, groups, poolDraws, finalDraws).Ok?
    requires var g := GenerateQuestions(catalog, requests, groups, poolDraws, finalDraws).value;
      forall k :: 0 <= k < |attempts| ==> |attempts[k]| == DrawLength(g.count)
    requires FirstBalanced(attempts, tolerance).Some?
    requires var g := GenerateQuestions(catalog, requests, groups, poolDraws, finalDraws).value;
      AssembleExam(g.questions, FirstBalanced(attempts, tolerance).value, texts, draws).Ok?
    ensures var g := GenerateQuestions(catalog, requests, groups, poolDraws, finalDraws).value;
      |g.questions| == DrawLength(g.count) && ConflictFree(groups, multiset(g.questions))
  {
    GenerateQuestionsSound(catalog, requests, groups, poolDraws, finalDraws);
    var answers := FirstBalanced(attempts, tolerance).value;
    assert answers in attempts;
  }

  class ExamRun {
    var quantities: seq<int>
    var allQuestions: seq<seq<QuestionRef>>
    var countExamQuestions: int
    var questions: seq<QuestionRef>
    var correctAnswers: seq<Choice>

    constructor ()
      ensures quantities == [] && allQuestions == [] && countExamQuestions == 0
      ensures questions == [] && correctAnswers == []
    {
      quantities, allQuestions, countExamQuestions := [], [], 0;
      questions, correctAnswers := [], [];
    }

    /** The inner loop of generateQuestions over the prefixes of folder d:
        each prefix's pool goes to filesTemp and its resolved count to
        quantities; a count above the pool stops the run. */
    method ResolveFolder(d: string, entries: seq<DirEntry>, prefs: seq<PrefixRequest>,
                         filesTemp: seq<seq<QuestionRef>>, countQuestions: int)
      returns (err: Option<SelectionError>, files: seq<seq<QuestionRef>>, total: int)
      requires |filesTemp| == |quantities| && Bounded(Zip(filesTemp, quantities))
      requires countQuestions == Total(Zip(filesTemp, quantities))
      modifies this`quantities
      ensures var r := PlanPrefixes(d, entries, prefs, Zip(filesTemp, old(quantities)));
        && (r.Err? ==> err == Some(r.error))
        && (r.Ok? ==> err == None && |files| == |quantities| && Zip(files, quantities) == r.value
                      && total == Total(r.value))
    {
      ghost var start := Zip(filesTemp, quantities);
      files, total := filesTemp, countQuestions;
      var j := 0;
      while j < |prefs|
        invariant 0 <= j <= |prefs|
        invariant |files| == |quantities| && Bounded(Zip(files, quantities))
        invariant PlanPrefixes(d, entries, prefs, start) == PlanPrefixes(d, entries, prefs[j..], Zip(files, quantities))
        invariant total == Total(Zip(files, quantities))
      {
        var q := prefs[j].prefix;
        var filesType := Pool(d, q, entries);
        assert prefs[j..][0] == prefs[j] && prefs[j..][1..] == prefs[j + 1..];
        var quant: int;
        match prefs[j].count {
          case All =>
            quant := |filesType|;
          case Count(c) =>
            if c > |filesType| {
              return Some(TooFewStored(|filesType|, c)), files, total;
            }
            quant := c;
        }
        ZipAppend(files, quantities, filesType, quant);
        files := files + [filesType];
        total := total + quant;
        quantities := quantities + [quant];
        j := j + 1;
      }
      assert prefs[|prefs|..] == [];
      return None, files, total;
    }

    /** The outer loop of generateQuestions over the folders. */
    method ResolveFolders(catalog: map<string, seq<DirEntry>>, requests: seq<FolderRequest>)
      returns (err: Option<SelectionError>, filesTemp: seq<seq<QuestionRef>>, countQuestions: int)
      modifies this`quantities
      ensures var r := MakePlan(catalog, requests);
        && (r.Err? ==> err == Some(r.error))
        && (r.Ok? ==> err == None && |filesTemp| == |quantities| && Zip(filesTemp, quantities) == r.value
                      && countQuestions == Total(r.value))
    {
      quantities := [];
      filesTemp := [];
      countQuestions := 0;
      var i := 0;
      while i < |requests|
        invariant 0 <= i <= |requests|
        invariant |filesTemp| == |quantities| && Bounded(Zip(filesTemp, quantities))
        invariant MakePlan(catalog, requests) == PlanFolders(catalog, requests[i..], Zip(filesTemp, quantities))
        invariant countQuestions == Total(Zip(filesTemp, quantities))
      {
        var d := requests[i].folder;
        assert requests[i..][0] == requests[i] && requests[i..][1..] == requests[i + 1..];
        if d !in catalog {
          return Some(MissingFolder(d)), filesTemp, countQuestions;
        }
        var e;
        e, filesTemp, countQuestions := ResolveFolder(d, catalog[d], requests[i].prefixes, filesTemp, countQuestions);
        if e.Some? {
          return e, filesTemp, countQuestions;
        }
        i := i + 1;
      }
      assert requests[|requests|..] == [];
      return None, filesTemp, countQuestions;
    }

    /** random.shuffle of every pool in allQuestions, pool k with the k-th
        list of draws. */
    method ShuffleEachPool(poolDraws: seq<seq<nat>>)
      modifies this`allQuestions
      ensures |allQuestions| == |old(allQuestions)|
      ensures forall k :: 0 <= k < |allQuestions| ==>
        allQuestions[k] == Shuffle(old(allQuestions)[k], DrawsAt(poolDraws, k))
    {
      var k := 0;
      while k < |allQuestions|
        invariant 0 <= k <= |allQuestions| == |old(allQuestions)|
        invariant forall m :: 0 <= m < k ==> allQuestions[m] == Shuffle(old(allQuestions)[m], DrawsAt(poolDraws, m))
        invariant forall m :: k <= m < |allQuestions| ==> allQuestions[m] == old(allQuestions)[m]
      {
        allQuestions := allQuestions[k := Shuffle(allQuestions[k], DrawsAt(poolDraws, k))];
        k := k + 1;
      }
    }

    /** The greedy walk of one pool: a question is appended to questions
        when none of its restrictions is already chosen, and the walk stops
        once quant questions were taken from the pool. */
    method WalkOnePool(groups: seq<seq<string>>, pool: seq<QuestionRef>, quant: int)
      modifies this`questions
      ensures questions == WalkPool(groups, old(questions), pool, quant, 0)
    {
      ghost var start := questions;
      var countType := 0;
      var j := 0;
      while j < |pool|
        invariant 0 <= j <= |pool|
        invariant WalkPool(groups, start, pool, quant, 0) == WalkPool(groups, questions, pool[j..], quant, countType)
      {
        var question := pool[j];
        assert pool[j..][0] == question && pool[j..][1..] == pool[j + 1..];
        if !HasRestriction(groups, Names(questions), question.name) {
          questions := questions + [question];
          countType := countType + 1;
          if countType >= quant {
            return;
          }
        }
        j := j + 1;
      }
    }

    /** The greedy walk over every pool in order, from an empty list. */
    method WalkPools(groups: seq<seq<string>>)
      requires |allQuestions| == |quantities|
      modifies this`questions
      ensures questions == Select(groups, [], Zip(allQuestions, quantities))
    {
      ghost var plans := Zip(allQuestions, quantities);
      questions := [];
      var count := 0;
      while count < |allQuestions|
        invariant 0 <= count <= |allQuestions|
        invariant Select(groups, [], plans) == Select(groups, questions, plans[count..])
      {
        assert plans[count..][0] == plans[count] && plans[count..][1..] == plans[count + 1..];
        WalkOnePool(groups, allQuestions[count], quantities[count]);
        count := count + 1;
      }
      assert plans[|allQuestions|..] == [];
    }

    /** generateQuestions: build the pools and quantities, shuffle every
        pool, walk them greedily, check the total, shuffle the result. An
        error stops the run where the source exits. */
    method GenerateQuestions(catalog: map<string, seq<DirEntry>>, requests: seq<FolderRequest>,
                             groups: seq<seq<string>>, poolDraws: seq<seq<nat>>, finalDraws: seq<nat>)
      returns (err: Option<SelectionError>)
      modifies this`quantities, this`allQuestions, this`countExamQuestions, this`questions
      ensures correctAnswers == old(correctAnswers)
      ensures var g := Selection.GenerateQuestions(catalog, requests, groups, poolDraws, finalDraws);
        (g.Err? ==> err == Some(g.error)) && (g.Ok? ==> err == None)
      ensures var g := Selection.GenerateQuestions(catalog, requests, groups, poolDraws, finalDraws);
        g.Ok? ==>
          && quantities == QuantsOf(g.value.plans) && allQuestions == PoolsOf(g.value.plans)
          && countExamQuestions == g.value.count && questions == g.value.questions
    {
      var e, filesTemp, countQuestions := ResolveFolders(catalog, requests);
      if e.Some? {
        return e;
      }
      ghost var plans := Zip(filesTemp, quantities);
      GenerateQuestionsPath(catalog, requests, groups, poolDraws, finalDraws, plans);
      allQuestions := filesTemp;
      countExamQuestions := countQuestions;
      // The score of each question divides by countExamQuestions.
      if countExamQuestions == 0 {
        return Some(NoQuestions);
      }
      err := ChooseQuestions(groups, poolDraws, finalDraws);
    }

    /** The second half of generateQuestions, once the pools and their
        quantities are known: shuffle every pool, walk them greedily, check
        the total and shuffle the chosen questions. */
    method ChooseQuestions(groups: seq<seq<string>>, poolDraws: seq<seq<nat>>, finalDraws: seq<nat>)
      returns (err: Option<SelectionError>)
      requires |allQuestions| == |quantities|
      modifies this`allQuestions, this`questions
      ensures var shuffled := ShufflePools(Zip(old(allQuestions), quantities), poolDraws);
        var picked := Select(groups, [], shuffled);
        && allQuestions == PoolsOf(shuffled) && quantities == QuantsOf(shuffled)
        && (|picked| < countExamQuestions ==> err == Some(Insufficient(countExamQuestions, |picked|)))
        && (|picked| >= countExamQuestions ==> err == None && questions == Shuffle(picked, finalDraws))
    {
      ShuffleEachPool(poolDraws);
      ghost var shuffled := ShufflePools(Zip(old(allQuestions), quantities), poolDraws);
      assert Zip(allQuestions, quantities) == shuffled;
      ZipInverse(allQuestions, quantities);
      WalkPools(groups);
      if |questions| < countExamQuestions {
        return Some(Insufficient(countExamQuestions, |questions|));
      }
      // The final shuffle of the chosen questions.
      questions := Shuffle(questions, finalDraws);
      return None;
    }

    /** generateCorrectAnswers over the draws supplied for its retry loop:
        the first balanced draw becomes correctAnswers, whole. When every
        supplied draw is rejected the list stays empty (the source would
        keep drawing). */
    method GenerateCorrectAnswers(attempts: seq<seq<Choice>>, tolerance: int) returns (accepted: bool)
      requires forall k :: 0 <= k < |attempts| ==> |attempts[k]| == DrawLength(countExamQuestions)
      modifies this`correctAnswers
      ensures accepted <==> FirstBalanced(attempts, tolerance).Some?
      ensures correctAnswers == if accepted then FirstBalanced(attempts, tolerance).value else []
      ensures accepted ==> |correctAnswers| == DrawLength(countExamQuestions) && Balanced(correctAnswers, tolerance)
    {
      correctAnswers := [];
      accepted := false;
      var k := 0;
      while k < |attempts|
        invariant 0 <= k <= |attempts|
        invariant FirstBalancedFrom(attempts, tolerance, 0) == FirstBalancedFrom(attempts, tolerance, k)
        invariant correctAnswers == [] && !accepted
      {
        var answers := attempts[k];
        var count := Counts(answers);
        var minA := MinOf(count);
        var maxA := MaxOf(count);
        if maxA - minA <= tolerance {
          correctAnswers := answers;
          accepted := true;
          return;
        }
        k := k + 1;
      }
    }

    /** generateExamFile: every chosen question assembled with its entry of
        correctAnswers and the draws for its distractor shuffle. */
    method GenerateExamFile(texts: map<(string, string), string>, draws: seq<seq<nat>>)
      returns (res: Result<seq<Assembled>, AssemblyError>)
      ensures res == AssembleExam(questions, correctAnswers, texts, draws)
    {
      var rendered: seq<Assembled> := [];
      var strAltRight: Option<string> := None;
      var count := 0;
      while count < |questions|
        invariant 0 <= count <= |questions| && count <= |correctAnswers| && |rendered| == count
        invariant strAltRight.Some? ==> StartsWith(strAltRight.value, CorrectPrefix)
        invariant AssembleExam(questions, correctAnswers, texts, draws)
          == AssembleFrom(questions, correctAnswers, texts, draws, count, strAltRight, rendered)
      {
        var q := questions[count];
        if (q.folder, q.name) !in texts {
          return Err(MissingQuestionFile(q.folder, q.name));
        }
        var questionText := texts[(q.folder, q.name)];
        var statement := Statement(questionText);
        var altsFinal, right := ParseAlternatives(Pieces(questionText), strAltRight);
        LastCorrectIsCorrectLine(Pieces(questionText), strAltRight);
        strAltRight := right;
        altsFinal := Shuffle(altsFinal, DrawsAt(draws, count));
        if count >= |correctAnswers| {
          return Err(NoAnswerFor(count));
        }
        if strAltRight.None? {
          return Err(NoCorrectAlternative(q.name));
        }
        altsFinal := InsertCorrect(altsFinal, correctAnswers[count], strAltRight.value);
        var letter := LetterOf(correctAnswers[count]);
        rendered := rendered + [Assembled(q.name, statement, altsFinal, letter)];
        count := count + 1;
      }
      return Ok(rendered);
    }
  }
}
