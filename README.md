# Quiz grading in the forms application

This project models the grading hidden in the form submission handler of a
small quiz-form web application, and proves what it promises. The handler
takes the question records of a form and the submitted fields, which are
keyed `question_<id>`. For each question it picks a comparison by question
type and input style. It records an answer per question id, adds the
question's marks to `total`, and adds them to `score` when the answer is
right. It then saves the response as `<form_id>_<response_id>.json`. A
form's responses are later found by a prefix test on the file name.

Modules:

- `Text` (`text.dfy`): `strip()` and `lower()` over ASCII. Whitespace is what
  Python's `str.isspace` accepts below 128: 9-13, 28-31 and the space.
  Lower-casing maps `A`-`Z` to `a`-`z`. Also the `startswith` test.
- `Sorting` (`sorting.dfy`): Python's string order and `sorted`, written as an
  insertion sort. The order is total and antisymmetric, so a sorted list is
  fixed by its elements. The insertion sort therefore yields exactly what
  Python's `sorted` yields. Comparing sorted lists is proved to be
  permutation equality.
- `Quiz` (`quiz.dfy`): question records, the submitted-field accessors, the
  dispatch, the per-question award and recorded answer, and the running
  total, score and answers dictionary as functions of the question list.
  `Grade` is the loop itself: a method that updates the accumulators and the
  answers map step by step, proved against those functions.
- `QuizLaws` (`quiz_laws.dfy`): the properties of each comparison and of the
  normalisation of the correct answers.
- `Storage` (`storage.dfy`): the response file name, the listing filter over
  a directory given as a sequence of names, and the whole submission with
  the form store given as a map.

Radio and short/text questions record the trimmed, lower-cased value
(app.py:144-145, 159-160). Only checkbox-style questions record the raw list
of checked values (app.py:138-140, 151-153).

## Model

| member | source | states |
|---|---|---|
| `Text.IsSpace` | app.py:131 | the whitespace `strip()` removes: the characters 9-13, 28-31 and the space |
| `Text.Lower` | app.py:124 | an upper-case letter `A`-`Z` becomes the letter 32 code points above it (`a`-`z`); every other character is unchanged; the result is never upper-case and is whitespace exactly when the input is |
| `Text.LowerStr` | app.py:124 | `str.lower()`: the character map applied at every position |
| `Text.LowerSameIff` | app.py:124 | two characters lower-case alike exactly when they differ at most in letter case |
| `Text.SameLetterKeepsSpace` | app.py:131 | characters that differ only in letter case are both whitespace or both not |
| `Text.LowerStrEqIff` | app.py:124 | two strings lower-case alike exactly when they have the same length and differ position by position at most in letter case |
| `Text.LowerStrAt` | app.py:124 | `lower()` keeps the length and lower-cases each character in place |
| `Text.TrimLeftCaseVariant` | app.py:131 | `lstrip()` of two strings that differ only in letter case gives two strings that differ only in letter case |
| `Text.TrimRightCaseVariant` | app.py:131 | the same for `rstrip()` |
| `Text.TrimLeftSpec` | app.py:131 | stripping the left end keeps a suffix of the input that does not start with whitespace, and everything removed is whitespace |
| `Text.TrimRightSpec` | app.py:131 | stripping the right end keeps a prefix of the input that does not end with whitespace, and everything removed is whitespace |
| `Text.Strip` | app.py:131 | `str.strip()`: `rstrip()` after `lstrip()` |
| `Text.StripSpec` | app.py:131 | neither end of `strip()`'s result is whitespace, and it is no longer than the input |
| `Text.StripRemovesOnlyEdges` | app.py:131 | the stripped string is a contiguous slice of the input with only whitespace before and after it |
| `Text.Normalize` | app.py:131 | `s.strip().lower()`, the normalisation of every correct entry and every submitted value |
| `Text.NormalizeSpec` | app.py:131 | `strip().lower()` yields a trimmed string with no upper-case letter, no longer than the input |
| `Text.NormalizeFixpoint` | app.py:131 | normalisation leaves a string unchanged exactly when it is already trimmed and lower-case |
| `Text.NormalizeIdempotent` | app.py:131 | normalising twice equals normalising once |
| `Text.NormalizeEqIff` | app.py:131 | two strings normalise alike exactly when their stripped forms differ at most in letter case |
| `Text.NormalizeIgnoresCase` | app.py:131 | two strings that differ only in letter case normalise alike |
| `Text.StartsWith` | app.py:222 | `str.startswith`: the string begins with the given prefix |
| `Sorting.StrLe` | app.py:141 | Python's `<=` on strings: lexicographic by code point, a proper prefix first |
| `Sorting.StrLeTotal` | app.py:141 | any two strings are comparable under Python's `<=` |
| `Sorting.StrLeAntisymmetric` | app.py:141 | strings that are `<=` each other are equal |
| `Sorting.StrLeTransitive` | app.py:141 | Python's string `<=` is transitive |
| `Sorting.ConsSorted` | app.py:141 | an element no greater than the head of a sorted list keeps it sorted when put in front |
| `Sorting.InsertMultiset` | app.py:141 | inserting adds exactly one copy of the element and removes nothing |
| `Sorting.InsertSorted` | app.py:141 | inserting into a sorted list keeps it sorted |
| `Sorting.Sort` | app.py:141 | `sorted` on a list of strings, as an insertion sort |
| `Sorting.SortCorrect` | app.py:141 | `sorted` returns a sorted permutation of its input |
| `Sorting.SortedUnique` | app.py:141 | two sorted lists with the same multiset of elements are equal |
| `Sorting.SortEqualIff` | app.py:141 | `sorted(a) == sorted(b)` holds exactly when `a` is a permutation of `b` |
| `Quiz.Field` | app.py:132 | the field name `question_<id>` a question's answer is posted under |
| `Quiz.GetList` | app.py:138 | `form.getlist(key)` (also app.py:151): every value posted under the key, in order; none when the key is absent |
| `Quiz.GetFirst` | app.py:144 | `form.get(key, "")` (also app.py:159): the first value posted under the key; "" when the key is absent or has no value |
| `Quiz.TypeOf` | app.py:124 | the question's type lower-cased; "" when absent |
| `Quiz.StyleOf` | app.py:125 | the input style as stored; "radio" when absent |
| `Quiz.MarksOf` | app.py:126 | the question's marks; 1 when absent |
| `Quiz.NormalizeCorrect` | app.py:131 | dropping non-strings leaves the normalised correct list no longer than `correct` |
| `Quiz.NormalizeCorrectNormalized` | app.py:131 | every entry of the normalised correct list is trimmed and lower-case |
| `Quiz.CorrectOf` | app.py:127-131 | the normalised correct list, from `[]` when `correct` is absent |
| `Quiz.CleanList` | app.py:139 | the cleaned list has one entry per submitted value |
| `Quiz.CleanListAt` | app.py:139 | each entry of the cleaned list is the normalised submitted value at the same position |
| `Quiz.RuleOf` | app.py:124-166 | the dispatch on the lower-cased type and the input style as stored: mcq with style "checkbox" and type checkbox compare lists; mcq with any other style compares one value; short and text compare one value; any other type is unrecognised |
| `Quiz.Awarded` | app.py:136-166 | whether the question earns its marks: sorted cleaned submission equals sorted correct list; normalised first value among the correct list; the same with a non-empty correct list; never for other types |
| `Quiz.SameSorted` | app.py:141 | `sorted(submitted_clean) == sorted(correct_normalized)` |
| `Quiz.IsAmong` | app.py:146 | the normalised submitted value is `in` the normalised correct list |
| `Quiz.Earned` | app.py:142-162 | what `score += marks` adds for the question: its marks when awarded, 0 otherwise |
| `Quiz.RecordedAnswer` | app.py:136-166 | what `answers[qid]` is set to: the raw list for list questions, the normalised first value for radio and short/text, the literal "Unknown question type" otherwise |
| `Quiz.TotalMarks` | app.py:119-133 | the running total after the given questions: the sum of their marks |
| `Quiz.Score` | app.py:118-162 | the running score after the given questions: the sum of the marks of those awarded |
| `Quiz.Answers` | app.py:120-166 | the answers dictionary after the given questions, each later question overwriting the entry for its id |
| `Quiz.TotalMarksAppend` | app.py:133 | the total of two question lists in sequence is the sum of their totals |
| `Quiz.ScoreAppend` | app.py:118-162 | the score of two question lists in sequence is the sum of their scores |
| `Quiz.UnrecognisedOnlyInTotal` | app.py:133-166 | a question of unrecognised type, wherever it stands, adds its marks to the total and nothing to the score |
| `Quiz.ScoreBounds` | app.py:118-162 | with non-negative marks, 0 <= score <= total |
| `Quiz.AllAwardedFullMarks` | app.py:133-162 | when every question is answered correctly the score equals the total |
| `Quiz.WrongAnswerCostsMarks` | app.py:133-162 | with non-negative marks, a question answered wrongly keeps the score at or below the total less its marks |
| `Quiz.FullMarksIff` | app.py:133-162 | with positive marks, score equals total exactly when every question is answered correctly |
| `Quiz.AnswersKeys` | app.py:122-166 | the answers dictionary has a key for exactly the question ids |
| `Quiz.AnswersLastWins` | app.py:140-166 | under a repeated id, the last question with that id decides the recorded answer |
| `Quiz.Grade` | app.py:116-166 | the loop's total is the sum of all marks; its score is the sum of the marks of the questions answered correctly; its answers map holds each question's recorded answer, later ids overwriting earlier ones; with non-negative marks 0 <= score <= total; the answer keys are exactly the question ids |
| `QuizLaws.NormalizeCorrectMembers` | app.py:131 | a string is in the normalised correct list exactly when some string entry of `correct` normalises to it |
| `QuizLaws.NormalizeCorrectAppend` | app.py:131 | normalising a concatenation of correct lists normalises each part and concatenates |
| `QuizLaws.NonStringDropped` | app.py:131 | a non-string entry anywhere in `correct` leaves no trace in the normalised list |
| `QuizLaws.AsJson` | app.py:131 | turns strings into JSON string entries, one per string, in order |
| `QuizLaws.NormalizeCorrectCons` | app.py:131 | a string entry in front of `correct` puts its normalised form in front of the normalised list |
| `QuizLaws.NormalizeCorrectStable` | app.py:131 | normalising a list of strings that are already normalised gives the list back |
| `QuizLaws.CorrectOfIdempotent` | app.py:131 | a question's normalised correct list normalises to itself |
| `QuizLaws.ListMatchIffPermutation` | app.py:136-155 | for mcq/checkbox and for checkbox questions, the marks are awarded exactly when the normalised submitted list is a permutation of the normalised correct list |
| `QuizLaws.ListMatchEmptySubmission` | app.py:138-141 | for those questions a missing field earns the marks exactly when the normalised correct list is empty |
| `QuizLaws.ListMatchIgnoresOrderAndCase` | app.py:139-141 | for those questions, two submissions that normalise to the same multiset are graded alike |
| `QuizLaws.ListMatchCaseInsensitive` | app.py:139-141 | for list questions, two submissions whose values differ one by one only in letter case are graded alike |
| `QuizLaws.SingleValueCaseInsensitive` | app.py:144-146 | for radio and short/text questions, submitted values that differ only in letter case are graded alike |
| `QuizLaws.SingleValueIff` | app.py:143-162 | for radio and short/text questions, the marks are awarded exactly when some string entry of `correct` normalises to the normalised first submitted value |
| `QuizLaws.OneOfMissingField` | app.py:143-147 | for radio questions a missing field is graded as "" and earns the marks exactly when a correct entry normalises to "" |
| `QuizLaws.TextMatchNeedsCorrect` | app.py:158-162 | for short/text questions with no string entry in `correct`, nothing is awarded whatever is submitted |
| `QuizLaws.TextGuardRedundant` | app.py:161 | the non-empty guard of short/text questions never changes the outcome: they are graded by membership alone |
| `QuizLaws.UnrecognisedNeverScores` | app.py:165-166 | a question of any other type earns nothing and records "Unknown question type" |
| `QuizLaws.UpperCaseTypeRecognised` | app.py:124-136 | the type "MCQ" is graded as mcq, because the type is lower-cased first |
| `QuizLaws.TypeCaseInsensitive` | app.py:124 | two questions whose types differ only in letter case are graded and recorded alike |
| `QuizLaws.StyleCaseSensitive` | app.py:125-137 | the input style is not lower-cased: mcq with style "Checkbox" is graded as a radio question |
| `QuizLaws.RecordedForm` | app.py:138-160 | checkbox-style questions record the raw list; radio and short/text questions record a normalised string |
| `QuizLaws.RecordedNeverUnknownLiteral` | app.py:144-166 | a recorded radio or short/text answer never equals the unknown-type literal |
| `QuizLaws.SwappedCheckboxAnswers` | app.py:150-155 | two checked values given in the other order, each differing from a correct answer only in letter case, earn the marks |
| `QuizLaws.CheckboxRule` | app.py:124-150 | a question of type "checkbox" is graded by comparing lists |
| `QuizLaws.CheckboxSwappedCaseExample` | app.py:150-155 | the checked values "B" and "A" against the correct answers "a" and "b" earn the marks |
| `QuizLaws.McqCheckboxSwappedCaseExample` | app.py:137-142 | for an mcq question with input style "checkbox", the checked values "B" and "A" against the correct answers "a" and "b" earn the marks |
| `QuizLaws.NormalizeParis` | app.py:144 | "Paris " normalises to "paris", and "paris" to itself |
| `QuizLaws.RadioRule` | app.py:124-143 | an mcq question without an input style is graded as a radio question |
| `QuizLaws.RadioTrimAndCaseExample` | app.py:143-147 | the submitted value "Paris " earns the marks against the correct answer "paris" |
| `Storage.ResponseFileName` | app.py:182 | a response file name starts with its form id, and its length is the two ids plus six |
| `Storage.ResponsesFor` | app.py:222 | a name is listed exactly when it is in the directory and starts with the form id |
| `Storage.FileNameInjective` | app.py:182 | within one form, two response ids give the same file name exactly when they are equal |
| `Storage.SavedResponseListed` | app.py:222 | a response saved for a form always passes that form's listing filter |
| `Storage.LongerIdOverMatched` | app.py:222 | the filter also lists the responses of every form whose id merely extends the requested one |
| `Storage.F10ListedUnderF1` | app.py:222 | listing "f1" picks up a response of form "f10" |
| `Storage.EqualLengthIdsExact` | app.py:222 | when the ids have equal length, a name that passes the filter belongs to the requested form |
| `Storage.Names` | app.py:182 | the directory of saved responses has one file name per saved key, in order |
| `Storage.ListingExactForEqualLengthIds` | app.py:222 | if every saved form id has the requested id's length, a saved response is listed exactly when it belongs to the requested form |
| `Storage.SubmitForm` | app.py:108-185 | an unknown form id gives "not found"; otherwise the response is saved under `<form_id>_<response_id>.json` and carries the graded answers, score and total |
| `Storage.SubmitTwice` | app.py:173-183 | submitting the same answers twice gives two distinct file names and two responses that differ only in their response id |

## Left out

- The web framework: routing, templates, redirects, flash messages, JSON replies and CORS.
- File I/O. The form store is a map from form id to form, and the responses directory is a sequence of file names. JSON parsing and writing are not modelled, so neither is the order of keys in a written answers dictionary.
- Directory enumeration order: the listing keeps whatever order the sequence of names has.
- Random id generation (`uuid.uuid4()`): form and response ids are parameters. Over-matching needs ids of different lengths (`Storage.EqualLengthIdsExact`), so two generated form ids, which are both 8 characters long, never over-match each other.
- The secret-code and administrator credential checks: they compare constants.
- The debug prints.
- Form creation, form viewing, form listing, form deletion and response deletion: not part of the grading loop of `submit_form`.
- `int()` parsing of `marks`: marks are integers. If marks are missing they default to 1.
- Full Unicode `strip()` and `lower()`: only ASCII whitespace and the letters A-Z are modelled.
- The `required` field: the loop reads it and never uses it.
- Question ids are modelled as strings, the way they appear in the field name. A numeric id and its string form collapse into one key, and so do a missing id and the string "None".
- JSON entries in `correct` are strings, integers, booleans or null. Floats and nested values are non-strings and are dropped like the others. A `correct` that is a string rather than a list is not modelled.
- A non-string `type`, which makes `.lower()` raise: the type is a string or absent.
- A form document without `questions`: forms always carry a question list here.
- Ill-typed form documents: the model assumes each question is a JSON object with a string or absent `type`, a string `id`, and a `correct` that is a list or absent. On other shapes the source fails or behaves differently, and the model does not capture it:
  - `questions` present but null or not a list makes the loop raise or iterate something else;
  - a question that is not an object makes `q.get` raise AttributeError (app.py:123);
  - a `correct` that is null or a number makes the comprehension raise TypeError (app.py:131);
  - a `correct` that is a JSON object makes the comprehension grade against its keys (app.py:131);
  - an `id` that is a list or an object makes `answers[qid]` raise TypeError, as the key is unhashable (app.py:140, 145, 153, 160, 166).
- A submitted field present with no value: the form parser never produces one, so `Quiz.GetFirst` treats it like an absent field.
