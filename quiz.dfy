/**
 The quiz grading loop of `submit_form`: question records as stored in a form
 document, the submitted fields, the dispatch on question type and input
 style, and the loop that accumulates the recorded answers, the score and
 the total.
 */
module Quiz {
  import opened Text
  import opened Sorting

  datatype Option<T> = None | Some(value: T) {
    /** `dict.get(key, default)` once the key's presence is known. */
    function GetOr(default: T): T {
      match this
      case Some(v) => v
      case None => default
    }
  }

  /** A JSON value that can appear in a question's `correct` list. Only strings take part in grading. */
  datatype JsonValue = JString(str: string) | JNumber(num: int) | JBool(flag: bool) | JNull

  /** A question record; a field absent from the JSON document is `None`. */
  datatype Question = Question(
    id: string,
    qtype: Option<string>,
    inputStyle: Option<string>,
    marks: Option<int>,
    correct: Option<seq<JsonValue>>)

  /** The submitted form: every field name with all the values posted under it. */
  type FormData = map<string, seq<string>>

  /** What is recorded for a question: one string, or the raw list of checked values. */
  datatype Recorded = One(text: string) | Many(items: seq<string>)

  /** The literal recorded for a question whose type is not recognised. */
  const UnknownTypeText: string := "Unknown question type"

  /** The field a question's answer is posted under. */
  function Field(id: string): string {
    "question_" + id
  }

  /** `form.getlist(key)`: every value posted under `key`, none if it is absent. */
  function GetList(form: FormData, key: string): seq<string> {
    if key in form then form[key] else []
  }

  /** `form.get(key, "")`: the first value posted under `key`, or "". */
  function GetFirst(form: FormData, key: string): string {
    if key in form && |form[key]| > 0 then form[key][0] else ""
  }

  /** The lower-cased type; a missing type is "". */
  function TypeOf(q: Question): string {
    LowerStr(q.qtype.GetOr(""))
  }

  /** The input style as stored (not lower-cased); a missing style is "radio". */
  function StyleOf(q: Question): string {
    q.inputStyle.GetOr("radio")
  }

  /** The question's marks; missing marks are 1. */
  function MarksOf(q: Question): int {
    q.marks.GetOr(1)
  }

  /** `[c.strip().lower() for c in correct if isinstance(c, str)]`. */
  function NormalizeCorrect(xs: seq<JsonValue>): (r: seq<string>)
    ensures |r| <= |xs|
  {
    if xs == [] then []
    else if xs[0].JString? then [Normalize(xs[0].str)] + NormalizeCorrect(xs[1..])
    else NormalizeCorrect(xs[1..])
  }

  /** Every entry of the normalised correct list is normalised. */
  lemma {:induction false} NormalizeCorrectNormalized(xs: seq<JsonValue>)
    ensures forall k :: 0 <= k < |NormalizeCorrect(xs)| ==> IsNormalized(NormalizeCorrect(xs)[k])
    decreases |xs|
  {
    if xs != [] {
      var rest := NormalizeCorrect(xs[1..]);
      NormalizeCorrectNormalized(xs[1..]);
      if xs[0].JString? {
        var r := NormalizeCorrect(xs);
        NormalizeSpec(xs[0].str);
        forall k | 0 <= k < |r| ensures IsNormalized(r[k]) {
          if k > 0 { assert r[k] == rest[k - 1]; }
        }
      }
    }
  }

  /** The question's correct answers, normalised, non-strings dropped. */
  function CorrectOf(q: Question): seq<string> {
    NormalizeCorrect(q.correct.GetOr([]))
  }

  /** `[a.strip().lower() for a in values]`. */
  function CleanList(xs: seq<string>): (r: seq<string>)
    ensures |r| == |xs|
  {
    if xs == [] then [] else [Normalize(xs[0])] + CleanList(xs[1..])
  }

  /** The cleaned list normalises each submitted value in place. */
  lemma {:induction false} CleanListAt(xs: seq<string>)
    ensures forall i :: 0 <= i < |xs| ==> CleanList(xs)[i] == Normalize(xs[i])
    decreases |xs|
  {
    if xs != [] {
      CleanListAt(xs[1..]);
      assert forall i :: 1 <= i < |xs| ==> CleanList(xs)[i] == CleanList(xs[1..])[i - 1];
    }
  }

  /** The comparison a question is graded by. */
  datatype Rule =
    | ListMatch      // mcq with input_style "checkbox", and checkbox
    | OneOf          // mcq with any other input_style
    | TextMatch      // short and text
    | Unrecognised   // every other type

  function RuleOf(q: Question): Rule {
    var t := TypeOf(q);
    if t == "mcq" then (if StyleOf(q) == "checkbox" then ListMatch else OneOf)
    else if t == "checkbox" then ListMatch
    else if t == "short" || t == "text" then TextMatch
    else Unrecognised
  }

  /** `sorted(submitted_clean) == sorted(correct_normalized)`. */
  predicate SameSorted(submitted: seq<string>, correct: seq<string>) {
    Sort(CleanList(submitted)) == Sort(correct)
  }

  /** `user_ans in correct_normalized`, `user_ans` being the normalised submitted value. */
  predicate IsAmong(submitted: string, correct: seq<string>) {
    Normalize(submitted) in correct
  }

  /** Whether the question's marks are added to the score. */
  predicate Awarded(q: Question, form: FormData) {
    var key := Field(q.id);
    match RuleOf(q)
    case ListMatch => SameSorted(GetList(form, key), CorrectOf(q))
    case OneOf => IsAmong(GetFirst(form, key), CorrectOf(q))
    case TextMatch => |CorrectOf(q)| > 0 && IsAmong(GetFirst(form, key), CorrectOf(q))
    case Unrecognised => false
  }

  /** What `answers[qid]` is set to for the question. */
  function RecordedAnswer(q: Question, form: FormData): Recorded {
    var key := Field(q.id);
    match RuleOf(q)
    case ListMatch => Many(GetList(form, key))
    case OneOf => One(Normalize(GetFirst(form, key)))
    case TextMatch => One(Normalize(GetFirst(form, key)))
    case Unrecognised => One(UnknownTypeText)
  }

  /** The marks the question adds to the score. */
  function Earned(q: Question, form: FormData): int {
    if Awarded(q, form) then MarksOf(q) else 0
  }

  /** The sum of the marks of all questions, whatever their type. */
  function TotalMarks(qs: seq<Question>): int {
    if qs == [] then 0 else TotalMarks(qs[..|qs| - 1]) + MarksOf(qs[|qs| - 1])
  }

  /** The sum of the marks of the questions that were answered correctly. */
  function Score(qs: seq<Question>, form: FormData): int {
    if qs == [] then 0 else Score(qs[..|qs| - 1], form) + Earned(qs[|qs| - 1], form)
  }

  /** The answers dictionary after the questions in order; a later question overwrites an earlier one with its id. */
  function Answers(qs: seq<Question>, form: FormData): map<string, Recorded> {
    if qs == [] then map[]
    else
      var q := qs[|qs| - 1];
      Answers(qs[..|qs| - 1], form)[q.id := RecordedAnswer(q, form)]
  }

  // ----- The accumulators -----

  lemma {:induction false} TotalMarksAppend(a: seq<Question>, b: seq<Question>)
    ensures TotalMarks(a + b) == TotalMarks(a) + TotalMarks(b)
    decreases |b|
  {
    if b == [] {
      assert a + b == a;
    } else {
      assert (a + b)[..|a + b| - 1] == a + b[..|b| - 1];
      TotalMarksAppend(a, b[..|b| - 1]);
    }
  }

  lemma {:induction false} ScoreAppend(a: seq<Question>, b: seq<Question>, form: FormData)
    ensures Score(a + b, form) == Score(a, form) + Score(b, form)
    decreases |b|
  {
    if b == [] {
      assert a + b == a;
    } else {
      assert (a + b)[..|a + b| - 1] == a + b[..|b| - 1];
      ScoreAppend(a, b[..|b| - 1], form);
    }
  }

  /** A question of unrecognised type adds its marks to the total and nothing to the score, wherever it stands. */
  lemma UnrecognisedOnlyInTotal(a: seq<Question>, u: Question, b: seq<Question>, form: FormData)
    requires RuleOf(u) == Unrecognised
    ensures TotalMarks(a + [u] + b) == TotalMarks(a + b) + MarksOf(u)
    ensures Score(a + [u] + b, form) == Score(a + b, form)
  {
    TotalMarksAppend(a + [u], b);
    TotalMarksAppend(a, [u]);
    TotalMarksAppend(a, b);
    ScoreAppend(a + [u], b, form);
    ScoreAppend(a, [u], form);
    ScoreAppend(a, b, form);
    assert [u][..0] == [];
  }

  /** With non-negative marks the score lies between 0 and the total. */
  lemma {:induction false} ScoreBounds(qs: seq<Question>, form: FormData)
    requires forall i :: 0 <= i < |qs| ==> MarksOf(qs[i]) >= 0
    ensures 0 <= Score(qs, form) <= TotalMarks(qs)
    decreases |qs|
  {
    if qs != [] {
      var init := qs[..|qs| - 1];
      assert forall i :: 0 <= i < |init| ==> init[i] == qs[i];
      ScoreBounds(init, form);
    }
  }

  /** Every question of `qs` is answered correctly. */
  predicate AllAwarded(qs: seq<Question>, form: FormData) {
    forall i :: 0 <= i < |qs| ==> Awarded(qs[i], form)
  }

  /** When every question is answered correctly the score is the total. */
  lemma {:induction false} AllAwardedFullMarks(qs: seq<Question>, form: FormData)
    requires AllAwarded(qs, form)
    ensures Score(qs, form) == TotalMarks(qs)
    decreases |qs|
  {
    if qs != [] {
      var init := qs[..|qs| - 1];
      assert AllAwarded(init, form) by {
        forall i | 0 <= i < |init| ensures Awarded(init[i], form) {
          assert init[i] == qs[i];
        }
      }
      AllAwardedFullMarks(init, form);
      assert Awarded(qs[|qs| - 1], form);
    }
  }

  /** With non-negative marks a question answered wrongly costs its marks: the score is at most the total less them. */
  lemma {:induction false} WrongAnswerCostsMarks(qs: seq<Question>, form: FormData, i: nat)
    requires forall j :: 0 <= j < |qs| ==> MarksOf(qs[j]) >= 0
    requires i < |qs| && !Awarded(qs[i], form)
    ensures Score(qs, form) <= TotalMarks(qs) - MarksOf(qs[i])
    decreases |qs|
  {
    var init, last := qs[..|qs| - 1], qs[|qs| - 1];
    assert forall j :: 0 <= j < |init| ==> init[j] == qs[j];
    if i == |qs| - 1 {
      ScoreBounds(init, form);
    } else {
      WrongAnswerCostsMarks(init, form, i);
      assert MarksOf(last) >= 0;
    }
  }

  /** With positive marks the score equals the total exactly when every question is answered correctly. */
  lemma FullMarksIff(qs: seq<Question>, form: FormData)
    requires forall i :: 0 <= i < |qs| ==> MarksOf(qs[i]) > 0
    ensures Score(qs, form) == TotalMarks(qs) <==> AllAwarded(qs, form)
  {
    if AllAwarded(qs, form) {
      AllAwardedFullMarks(qs, form);
    } else {
      var i :| 0 <= i < |qs| && !Awarded(qs[i], form);
      WrongAnswerCostsMarks(qs, form, i);
      assert MarksOf(qs[i]) > 0;
    }
  }

  /** The answers dictionary has a key for exactly the ids of the questions. */
  lemma {:induction false} AnswersKeys(qs: seq<Question>, form: FormData, k: string)
    ensures k in Answers(qs, form) <==> exists i :: 0 <= i < |qs| && qs[i].id == k
    decreases |qs|
  {
    if qs != [] {
      var init := qs[..|qs| - 1];
      AnswersKeys(init, form, k);
      if exists i :: 0 <= i < |init| && init[i].id == k {
        var i :| 0 <= i < |init| && init[i].id == k;
        assert qs[i].id == k;
      }
      if exists i :: 0 <= i < |qs| && qs[i].id == k {
        var i :| 0 <= i < |qs| && qs[i].id == k;
        if i < |init| { assert init[i].id == k; }
      }
    }
  }

  /** Under a repeated id the last question with that id decides what is recorded. */
  lemma {:induction false} AnswersLastWins(qs: seq<Question>, form: FormData, i: nat)
    requires i < |qs|
    requires forall j :: i < j < |qs| ==> qs[j].id != qs[i].id
    ensures qs[i].id in Answers(qs, form)
    ensures Answers(qs, form)[qs[i].id] == RecordedAnswer(qs[i], form)
    decreases |qs|
  {
    if i < |qs| - 1 {
      var init := qs[..|qs| - 1];
      assert forall j :: i < j < |init| ==> init[j] == qs[j];
      AnswersLastWins(init, form, i);
    }
  }

  /** Extending the questions by one adds that question's contribution to each accumulator. */
  lemma PrefixStep(qs: seq<Question>, i: nat, form: FormData)
    requires i < |qs|
    ensures TotalMarks(qs[..i + 1]) == TotalMarks(qs[..i]) + MarksOf(qs[i])
    ensures Score(qs[..i + 1], form) == Score(qs[..i], form) + Earned(qs[i], form)
    ensures Answers(qs[..i + 1], form) == Answers(qs[..i], form)[qs[i].id := RecordedAnswer(qs[i], form)]
  {
    assert qs[..i + 1][..i] == qs[..i];
  }

  /** The grading loop of `submit_form`. */
  method Grade(questions: seq<Question>, form: FormData)
    returns (answers: map<string, Recorded>, score: int, total: int)
    ensures total == TotalMarks(questions)
    ensures score == Score(questions, form)
    ensures answers == Answers(questions, form)
    ensures (forall i :: 0 <= i < |questions| ==> MarksOf(questions[i]) >= 0) ==> 0 <= score <= total
    ensures forall k :: k in answers <==> exists i :: 0 <= i < |questions| && questions[i].id == k
  {
    answers, score, total := map[], 0, 0;
    for i := 0 to |questions|
      invariant total == TotalMarks(questions[..i])
      invariant score == Score(questions[..i], form)
      invariant answers == Answers(questions[..i], form)
    {
      PrefixStep(questions, i, form);
      ghost var answers0, score0 := answers, score;
      var q := questions[i];
      var qid := q.id;
      var qtype := LowerStr(q.qtype.GetOr(""));
      var inputStyle := q.inputStyle.GetOr("radio");
      var marks := q.marks.GetOr(1);
      var correctNormalized := NormalizeCorrect(q.correct.GetOr([]));
      var baseField := Field(qid);
      total := total + marks;

      if qtype == "mcq" {
        if inputStyle == "checkbox" {
          var userAnsList := GetList(form, baseField);
          var userAnsListClean := CleanList(userAnsList);
          answers := answers[qid := Many(userAnsList)];
          if Sort(userAnsListClean) == Sort(correctNormalized) {
            score := score + marks;
          }
        } else {
          var userAns := Normalize(GetFirst(form, baseField));
          answers := answers[qid := One(userAns)];
          if userAns in correctNormalized {
            score := score + marks;
          }
        }
      } else if qtype == "checkbox" {
        var userAnsList := GetList(form, baseField);
        var userAnsListClean := CleanList(userAnsList);
        answers := answers[qid := Many(userAnsList)];
        if Sort(userAnsListClean) == Sort(correctNormalized) {
          score := score + marks;
        }
      } else if qtype == "short" || qtype == "text" {
        var userAns := Normalize(GetFirst(form, baseField));
        answers := answers[qid := One(userAns)];
        if |correctNormalized| > 0 && userAns in correctNormalized {
          score := score + marks;
        }
      } else {
        answers := answers[qid := One(UnknownTypeText)];
      }
      assert answers == answers0[q.id := RecordedAnswer(q, form)];
      assert score == score0 + Earned(q, form);
    }
    assert questions[..|questions|] == questions;
    if forall i :: 0 <= i < |questions| ==> MarksOf(questions[i]) >= 0 {
      ScoreBounds(questions, form);
    }
    forall k ensures k in answers <==> exists i :: 0 <= i < |questions| && questions[i].id == k {
      AnswersKeys(questions, form, k);
    }
  }
}
