# Exam generator core in Dafny

This project models the heart of the exam generator in `exam/exam.py`: the
steps of `generateExam` that decide the content of an exam. It covers:

- building one pool of question files per configured prefix;
- resolving each requested count: `"*"` or a number;
- walking the shuffled pools greedily under the mutual-exclusion
  restrictions;
- drawing answer positions until the five letters are balanced;
- splitting each question file into its statement and alternatives;
- placing the right alternative at the drawn position;
- writing the answer key.

The state of the class `Exam` that these steps fill in (`quantities`,
`allQuestions`, `countExamQuestions`, `questions`, `correctAnswers`) is the
class `ExamGeneration.ExamRun`. Its methods follow the source's loops. Each
is proved equal to a pure specification function, and the properties are
proved about those functions.

The modules:

- `Results`: `Result` and `Option`.
- `Strings`: the Python string operations the code relies on. These are
  `strip` with Python's whitespace set, `startswith`/`endswith`, `find`,
  slicing with negative and out-of-range bounds, `split` and `str` of a
  number.
- `Shuffling`: `random.shuffle` as Fisher–Yates steps driven by supplied
  draws.
- `Restrictions`: `hasRestriction` and `getRestrictions`.
- `Selection`, `SelectionProperties`: pools, counts, the greedy walk, the
  error conditions of `generateQuestions`, and the conflict-freedom
  invariant.
- `SelectionAsWritten`: the greedy walk exactly as line 504 calls
  `hasRestriction` (see Findings).
- `Balancer`: `generateCorrectAnswers`.
- `Assembler`: `letter`, parsing one question file, inserting the right
  alternative, the answer-key lines and `generateAnswersFiles`.
- `ExamGeneration`: the class `ExamRun` and the exam-wide assembly loop.

The greedy walk everywhere outside `SelectionAsWritten` models the
corrected call at line 504: the new question is tested against the names
of the questions chosen so far. As written, the call never reports a
conflict, so the program behaves as that walk with no restriction groups.

The parts of the program that are not deterministic, or that come from
outside, are parameters:

- the configuration becomes a list of `FolderRequest`s and a list of
  restriction groups;
- each folder listing becomes a map from folder to `DirEntry`s, one per
  name with its `isfile` flag;
- the question files become a map from (folder, name) to text;
- the random draws become lists of natural numbers.

A program exit (`error(...)`, `sys.exit(1)`) or an exception that ends the
run is modelled as an `Err` value that names the cause.

## Model

| member | source | states |
|---|---|---|
| Strings.StripShape | exam/exam.py:566 | `strip()` yields a contiguous slice of its input, with only whitespace cut from both ends; the result is empty or neither begins nor ends with whitespace |
| Strings.StripIdempotent | exam/exam.py:571-574 | stripping twice is the same as stripping once |
| Strings.RemoveSuffix | exam/exam.py:203-207 | a string without the suffix comes back unchanged; with a non-empty suffix, the result followed by the suffix is the input; an empty suffix gives the empty string (`s[:-0]`) |
| Strings.FindSpec | exam/exam.py:564 | `find` is -1 exactly when the substring occurs nowhere; otherwise it occurs there and at no earlier index |
| Strings.SliceIndex | exam/exam.py:566-567 | Python's slice bound: within range it is kept, a negative one counts from the end, one past the end clamps to the length and one before the start clamps to 0 |
| Strings.SplitJoin | exam/exam.py:568 | joining the pieces of `split(sep)` with `sep` gives back the string |
| Strings.SplitPiecesFree | exam/exam.py:568 | no piece of a split contains the separator |
| Strings.SplitLeftmost | exam/exam.py:568 | every cut is at the leftmost occurrence: each piece but the last, followed by the separator, first contains the separator right after the piece (so `"///"` splits as `["", "/"]`) |
| Strings.NatToString | exam/exam.py:636 | `str(n)` is a non-empty string of decimal digits, without a leading zero, whose value is n |
| Shuffling.Shuffle | exam/exam.py:486-490 | a shuffle keeps the length and the multiset of elements: it is a permutation |
| Restrictions.HasRestriction | exam/exam.py:405-415 | true exactly when some group that holds q has a member among the chosen names |
| Restrictions.HasRestrictionCases | exam/exam.py:405-415 | a name in a group that is already chosen always conflicts; a name in no group never does |
| Restrictions.AppendOthers | exam/exam.py:426-428 | the inner loop appends the members of one group other than q, in order |
| Restrictions.GetRestrictions | exam/exam.py:420-429 | the nested loops return `Related(groups, q)` |
| Restrictions.RelatedAppend | exam/exam.py:423-428 | the result is built group by group in configuration order, so a name that shares two groups with q is reported twice |
| Restrictions.RelatedMembers | exam/exam.py:420-429 | a name is reported exactly when it differs from q and shares a group with q |
| Restrictions.RelatedOutsideGroups | exam/exam.py:420-429 | a name in no group has no restrictions |
| Selection.Pool | exam/exam.py:451 | each pool element comes from a regular file of the folder whose name starts with the prefix, with ".tex" removed, and every such file gives one; the pool has exactly one element per matching listing entry (`MatchCount`), so it is no longer than the listing |
| Selection.PoolAppend | exam/exam.py:451 | the comprehension keeps the listing's order: the pool of a listing is the pool of its front followed by the pool of its back |
| Selection.Resolve | exam/exam.py:453-460 | `"*"` resolves to the pool size; a number resolves to itself exactly when it does not exceed the pool size; a larger number is the "too few questions" error carrying both numbers |
| Selection.PlanPrefixes | exam/exam.py:447-462 | on success, keeps the earlier plans, appends exactly one plan per prefix and every quantity is within its pool |
| Selection.PlanPrefixesAsked | exam/exam.py:447-462 | on success, plan j of the folder is the pool of prefix j with its resolved count (`*` gives the pool size) |
| Selection.PlanFolders | exam/exam.py:439-462 | on success, keeps the earlier plans as a prefix and every quantity within its pool |
| Selection.PlanFoldersAsked | exam/exam.py:439-462 | on success, the folders add, in configuration order, the plans of their prefixes |
| Selection.MakePlanAsked | exam/exam.py:434-469 | on success, `allQuestions`/`quantities` are exactly the pools and counts the configuration asks for, prefix by prefix and folder by folder |
| Selection.PlanPrefixesOk | exam/exam.py:453-460 | the prefix loop succeeds exactly when every count fits its pool |
| Selection.PlanFoldersOk | exam/exam.py:439-462 | the folder loop succeeds exactly when every folder exists and every count fits |
| Selection.MakePlanOk | exam/exam.py:434-469 | building `allQuestions`/`quantities` succeeds exactly when every folder exists and every count fits its pool |
| Selection.WalkPool | exam/exam.py:501-509 | the walk of one pool extends the chosen list and adds a subsequence of the pool, in pool order; it adds at most max(quant, 1) questions and at most the pool's size |
| Selection.Select | exam/exam.py:496-511 | the walk over all pools only extends the list it starts from |
| Selection.ShufflePools | exam/exam.py:486-490 | every pool is replaced by a permutation of itself; its quantity is kept |
| SelectionProperties.AcceptKeepsConflictFree | exam/exam.py:504-506 | appending a question that `hasRestriction` accepts keeps the chosen list conflict-free |
| SelectionProperties.WalkPoolConflictFree | exam/exam.py:501-509 | the walk of a pool keeps the chosen list conflict-free |
| SelectionProperties.SelectConflictFree | exam/exam.py:496-511 | after the walk over all pools, no two chosen questions share a restriction group, and no restricted question is chosen twice |
| SelectionProperties.RestrictionPersists | exam/exam.py:405-415 | a conflict stays a conflict when more questions are chosen |
| SelectionProperties.WalkPoolComplete | exam/exam.py:501-509 | the walk is greedy: when it takes fewer questions than it may, every question of the pool it left out conflicts with the chosen list |
| SelectionProperties.WalkPoolUnrestricted | exam/exam.py:501-509 | with no restrictions the walk takes the first min(max(quant, 1), pool size) questions of the pool |
| SelectionProperties.ZeroRequestTakesOne | exam/exam.py:504-508 | a request of 0 or fewer still takes the pool's first question, because the stop test comes after the append |
| SelectionProperties.GenerateQuestionsSound | exam/exam.py:434-524 | on success: every shuffled pool is a permutation of its listed pool, with its quantity kept and within range; countExamQuestions is the sum of the quantities and is not 0; at least that many questions are chosen; the chosen list is a permutation of the greedy walk and is conflict-free |
| SelectionProperties.GenerateQuestionsErrors | exam/exam.py:443-517 | a missing folder or an oversized count is reported exactly when some request is at fault; "insufficient questions" is reported exactly when the walk chooses fewer than countExamQuestions, and it carries both numbers |
| SelectionProperties.PlanErrorKinds | exam/exam.py:443-458 | building the pools fails only with a missing folder or an oversized count |
| SelectionProperties.PrefixErrorKinds | exam/exam.py:455-458 | the prefix loop fails only with an oversized count |
| SelectionAsWritten.StrElements | exam/exam.py:413 | the names that `in` can match in a Python list are exactly its str elements |
| SelectionAsWritten.AsCalledNeverConflicts | exam/exam.py:504 | `hasRestriction` called with `Exam.questions` never reports a conflict |
| SelectionAsWritten.WalkPoolAsWrittenIgnoresGroups | exam/exam.py:501-509 | the walk of one pool, as written, is the unrestricted walk |
| SelectionAsWritten.SelectAsWrittenIgnoresGroups | exam/exam.py:496-511 | the walk over all pools, as written, is the unrestricted walk |
| SelectionAsWritten.RestrictedPairBothChosen | exam/exam.py:504 | for two mutually exclusive files with `"*"` requested, the walk as written chooses both, which is not conflict-free; the corrected walk chooses one |
| Balancer.Counts | exam/exam.py:537 | the five counts are the occurrences of positions 0..4 in the draw, and together they account for every draw |
| Balancer.MaxOfBounds | exam/exam.py:539 | `max` is attained and bounds every element |
| Balancer.MinOfBounds | exam/exam.py:538 | `min` is attained and bounds every element |
| Balancer.MaxMinOf | exam/exam.py:538-539 | both max and min are attained and bound every element |
| Balancer.BalancedPairwise | exam/exam.py:540 | a draw is accepted exactly when every two letter counts differ by at most the tolerance |
| Balancer.FirstBalancedFrom | exam/exam.py:534-546 | the index found is the first balanced draw, or the end when none is balanced |
| Balancer.FirstBalanced | exam/exam.py:532-546 | the retry loop accepts a draw exactly when one is balanced; what it accepts is balanced and is a whole supplied draw, and every draw before it was rejected |
| Balancer.CountsSum | exam/exam.py:536-537 | the five counts add up to the number of draws |
| Balancer.ZeroToleranceEven | exam/exam.py:540 | with tolerance 0, every letter occurs exactly one fifth of the time |
| Balancer.WideToleranceAcceptsAll | exam/exam.py:540 | a tolerance of at least the number of questions accepts every draw |
| Balancer.TenQuestionsZeroTolerance | exam/exam.py:536-540 | with ten questions and tolerance 0 each letter is the answer twice |
| Assembler.Letter | exam/exam.py:174-178 | `letter(n)` succeeds exactly for 0..4 and gives the letter n places after 'A'; otherwise the error carries n |
| Assembler.LetterOf | exam/exam.py:588 | every drawn position has a letter |
| Assembler.StatementAndBlock | exam/exam.py:564-567 | with the marker present, the text is the statement part, the marker and the alternatives; without it, the statement is all but the last character (`[:-1]`) and the alternatives start at index 13 |
| Assembler.Distractors | exam/exam.py:569-574 | a distractor line is `\choice ` plus a stripped unmarked piece, every unmarked piece gives one, and there are no more lines than pieces |
| Assembler.DistractorsAppend | exam/exam.py:570-574 | the distractors keep the file order: those of a list are those of its front followed by those of its back |
| Assembler.DistractorsSingle | exam/exam.py:571-574 | a single piece gives its own `\choice ` line, unless it is the marked one, which gives none |
| Assembler.LastCorrectUnmarked | exam/exam.py:570-572 | with no piece marked `*`, the right alternative is the one left by the previous question |
| Assembler.LastCorrectLastMarked | exam/exam.py:570-572 | otherwise the last marked piece wins: `\CorrectChoice ` plus the piece, with two characters cut and then stripped |
| Assembler.DistractorsCount | exam/exam.py:570-574 | every piece is a distractor or a marked piece |
| Assembler.ParseAlternatives | exam/exam.py:570-574 | the loop over the pieces gives the distractors and the right alternative that the specifications define |
| Assembler.InsertCorrect | exam/exam.py:584-587 | the right alternative ends up at min(idx, number of distractors), with the distractors in order around it, one element longer |
| Assembler.AssembleQuestion | exam/exam.py:558-588 | the assembled question keeps its name and has the stripped statement; it has one alternative more than the K distractors, the right one at min(idx, K) with a permutation of the distractors around it; its letter is that of the drawn idx, which names the right alternative's position exactly when idx <= K |
| Assembler.AssembleQuestionRight | exam/exam.py:569-575 | the right alternative a question carries, and hands on to the next question as `str_alt_right`, is `\CorrectChoice ` plus the stripped text of its last `*` piece, or the inherited one when no piece is marked |
| Assembler.AssembleQuestionFails | exam/exam.py:570-587 | assembly fails exactly when no piece is marked and no earlier question left a right alternative |
| Assembler.LastCorrectPresent | exam/exam.py:570-572 | a marked piece, or a carried value, always gives a right alternative |
| Assembler.LastCorrectIsCorrectLine | exam/exam.py:572 | the right alternative is always a `\CorrectChoice ` line |
| Assembler.InsertOneCorrect | exam/exam.py:584-587 | inserting a `\CorrectChoice ` line among `\choice ` lines gives exactly one `\CorrectChoice ` line |
| Assembler.ExactlyOneCorrect | exam/exam.py:570-587 | every assembled question has exactly one `\CorrectChoice` alternative |
| Assembler.AssembleQuestionWell | exam/exam.py:558-588 | after a question that left a `\CorrectChoice ` line behind (or first of all), a question is well assembled: name, stripped statement, one alternative per distractor plus the right one, the right one the only `\CorrectChoice ` line at min(idx, K), and it is the line of the last `*` piece or the inherited one, with a permutation of the distractors around it, and the drawn letter; the line it hands on is its own right alternative |
| Assembler.AnswerZeroFirst | exam/exam.py:584-588 | a drawn position of 0 puts the right alternative first, with letter A |
| Assembler.AnswerLineReadBack | exam/exam.py:636 | the question number and the letter can be read back from an answer-key line "Q{n} - {L}" |
| Assembler.AnswerFiles | exam/exam.py:632-640 | line i of the answer file is the answer-key line for question i; the horizontal file is a letter and two tabs per question |
| ExamGeneration.AssembleFrom | exam/exam.py:555-620 | on success, one assembled question per chosen question, in order, each with its name and the letter of its drawn answer; this needs an answer for every question |
| ExamGeneration.AssembleFromStep | exam/exam.py:555-575 | one pass of the loop: the question has a file and an answer, and the loop goes on to the next question with this question's right alternative, a `\CorrectChoice ` line, as `str_alt_right` |
| ExamGeneration.AssembleFromFirst | exam/exam.py:555-588 | the first question of the loop is well assembled after the `str_alt_right` the loop starts with |
| ExamGeneration.AssembleFromAt | exam/exam.py:555-620 | on success, question k has a question file and is well assembled from it with its drawn answer, its right alternative being its last `*` piece or, when none is marked, the right alternative of question k-1 (the value the loop starts with for its first question) |
| ExamGeneration.AssembleExamWell | exam/exam.py:553-620 | on success, every question of the exam is well assembled; its right alternative is its last `*` piece, or, when none is marked, the right alternative of the question before it (nothing for the first question) |
| ExamGeneration.AssembleExam | exam/exam.py:553-620 | the exam-wide loop gives one question per chosen question, each with a question file and well assembled from it: its statement, one alternative per distractor plus the right one, exactly one `\CorrectChoice` line, which is that of its last `*` piece or else the right alternative of the question before it, and the letter of its answer |
| ExamGeneration.AnswerKeyMatchesExam | exam/exam.py:588 | answer-key line i names the letter written in question i |
| ExamGeneration.CompleteRunIsExact | exam/exam.py:646-651 | a run that gets through selection, balancing and assembly chose exactly countExamQuestions questions (none if that is negative); with the corrected restriction test of line 504 they are also conflict-free |
| ExamGeneration.ExamRun.constructor | exam/exam.py:95-102 | all lists of the exam start empty and the count at 0 |
| ExamGeneration.ExamRun.ResolveFolder | exam/exam.py:447-462 | the prefix loop appends to `quantities` and to the pool list exactly what the specification of the prefix loop gives, or it reports its error |
| ExamGeneration.ExamRun.ResolveFolders | exam/exam.py:436-462 | the folder loop leaves the pools, the `quantities` and the count that the plan specifies, or it reports its error |
| ExamGeneration.ExamRun.ShuffleEachPool | exam/exam.py:486-490 | each pool of `allQuestions` is replaced by its shuffle |
| ExamGeneration.ExamRun.WalkOnePool | exam/exam.py:501-509 | the loop over one pool leaves `questions` equal to the walk the specification defines |
| ExamGeneration.ExamRun.WalkPools | exam/exam.py:496-511 | the loop over all pools leaves `questions` equal to the walk the specification defines |
| ExamGeneration.ExamRun.GenerateQuestions | exam/exam.py:434-524 | the method reports the error or the fields that the specification of `generateQuestions` gives; `correctAnswers` is left as it was |
| ExamGeneration.ExamRun.ChooseQuestions | exam/exam.py:486-524 | once the pools and quantities are known: every pool is replaced by its shuffle, the shortfall error carries both numbers, and otherwise `questions` is the shuffle of the greedy walk over the shuffled pools |
| ExamGeneration.ExamRun.GenerateCorrectAnswers | exam/exam.py:530-546 | `correctAnswers` is the first balanced draw, whole, with one entry per question; it is empty when none of the supplied draws is balanced |
| ExamGeneration.ExamRun.GenerateExamFile | exam/exam.py:553-620 | the loop over the chosen questions gives what the exam-wide specification gives, error included |

## Left out

- Selection.WalkPool: models the corrected restriction test of line 504 (see Findings); for the program as written it holds with the groups taken as empty (`SelectionAsWritten.SelectAsWrittenIgnoresGroups`), where conflict-freedom says nothing.
- Selection.Select: models the corrected restriction test of line 504 (see Findings); for the program as written it holds with the groups taken as empty (`SelectionAsWritten.SelectAsWrittenIgnoresGroups`), where conflict-freedom says nothing.
- SelectionProperties.WalkPoolConflictFree: models the corrected restriction test of line 504 (see Findings); for the program as written it holds with the groups taken as empty (`SelectionAsWritten.SelectAsWrittenIgnoresGroups`), where conflict-freedom says nothing.
- SelectionProperties.SelectConflictFree: models the corrected restriction test of line 504 (see Findings); for the program as written it holds with the groups taken as empty (`SelectionAsWritten.SelectAsWrittenIgnoresGroups`), where conflict-freedom says nothing.
- SelectionProperties.WalkPoolComplete: models the corrected restriction test of line 504 (see Findings); for the program as written it holds with the groups taken as empty (`SelectionAsWritten.SelectAsWrittenIgnoresGroups`), where conflict-freedom says nothing.
- SelectionProperties.GenerateQuestionsSound: models the corrected restriction test of line 504 (see Findings); for the program as written it holds with the groups taken as empty (`SelectionAsWritten.SelectAsWrittenIgnoresGroups`), where conflict-freedom says nothing.
- ExamGeneration.CompleteRunIsExact: models the corrected restriction test of line 504 (see Findings); for the program as written it holds with the groups taken as empty (`SelectionAsWritten.SelectAsWrittenIgnoresGroups`), where conflict-freedom says nothing.
- ExamGeneration.ExamRun.WalkOnePool: models the corrected restriction test of line 504 (see Findings); for the program as written it holds with the groups taken as empty (`SelectionAsWritten.SelectAsWrittenIgnoresGroups`), where conflict-freedom says nothing.
- ExamGeneration.ExamRun.WalkPools: models the corrected restriction test of line 504 (see Findings); for the program as written it holds with the groups taken as empty (`SelectionAsWritten.SelectAsWrittenIgnoresGroups`), where conflict-freedom says nothing.
- ExamGeneration.ExamRun.ChooseQuestions: models the corrected restriction test of line 504 (see Findings); for the program as written it holds with the groups taken as empty (`SelectionAsWritten.SelectAsWrittenIgnoresGroups`), where conflict-freedom says nothing.
- ExamGeneration.ExamRun.GenerateQuestions: models the corrected restriction test of line 504 (see Findings); for the program as written it holds with the groups taken as empty (`SelectionAsWritten.SelectAsWrittenIgnoresGroups`), where conflict-freedom says nothing.
- YAML configuration, gettext messages, the command line, logging, pdflatex and every other file and process operation: these are I/O. Folder listings, file contents and configuration values are parameters.
- The randomness source (`getRandom`, `random.seed`) is left out. Each shuffle takes a list of draws; once they run out, the remaining steps swap nothing.
- The `while True: shuffle; if random() > 0.5: break` loops are left out. They repeat a shuffle a random number of times; the model performs one shuffle per draw list, so it says nothing about how many times Python shuffles.
- ExamGeneration.ExamRun.GenerateCorrectAnswers: it takes a finite list of draws. The source draws until one is balanced and may never stop; when no supplied draw is balanced, the model stops with `correctAnswers` empty.
- The score per question (`questionValue`, lines 475-482) is floating point and is left out. Only its division by zero, when countExamQuestions is 0, is modelled (`NoQuestions`).
- `generateAnswerSheet`, `generateHeaderFile` and the LaTeX text written for each question (lines 590-620) are left out. The model keeps what that text carries: the statement, the alternatives in order and the letter.
- `commandQuestions` and the other commands are outside this model.
- A count in the configuration is either `"*"` or an integer. Other YAML values are not modelled.
- The message at line 517 applies unary `+` to a string. That raises TypeError instead of printing the message, but the run ends either way. The model reports `Insufficient` with both numbers.
- The letter sequence written in the LaTeX comments of each question is not modelled. It is the same letter that `Assembled.letter` carries.

## Findings

| source | as written | input that shows it | evidently intended | confidence | as-written member | corrected member |
|---|---|---|---|---|---|---|
| exam/exam.py:504 with exam/exam.py:413 | `hasRestriction(Exam.questions, question)` passes the list of `[d_type, q_type, name]` lists. `q_restriction in q_list` then compares a str with lists, which is never true, so no restriction is ever enforced | restriction group `["F1", "F2"]` and one prefix whose pool holds F1 and F2, with `"*"` requested: both are chosen | test the new question against the names of the questions chosen so far, so that at most one question of each group enters the exam | not executed | SelectionAsWritten.RestrictedPairBothChosen | SelectionProperties.SelectConflictFree |
