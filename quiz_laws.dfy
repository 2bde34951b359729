/**
 What quiz grading promises: the comparison each question type is graded by,
 how the correct answers are normalised, and how the score, the total and
 the answers dictionary relate to the questions.
 */
module QuizLaws {
  import opened Text
  import opened Sorting
  import opened Quiz

  // ----- Normalisation of the correct answers -----

  /** `v` is a string entry that normalises to `x`. */
  predicate NormalizesTo(v: JsonValue, x: string) {
    v.JString? && Normalize(v.str) == x
  }

  /** Some entry of `xs` is a string that normalises to `x`. */
  predicate SomeEntryNormalizesTo(xs: seq<JsonValue>, x: string) {
    exists k :: 0 <= k < |xs| && NormalizesTo(xs[k], x)
  }

  /** The normalised correct list holds exactly the normalised forms of the string entries. */
  lemma {:induction false} NormalizeCorrectMembers(xs: seq<JsonValue>, x: string)
    ensures x in NormalizeCorrect(xs) <==> SomeEntryNormalizesTo(xs, x)
    decreases |xs|
  {
    if xs != [] {
      var tail := xs[1..];
      var head: seq<string> := if xs[0].JString? then [Normalize(xs[0].str)] else [];
      assert NormalizeCorrect(xs) == head + NormalizeCorrect(tail);
      assert x in head <==> NormalizesTo(xs[0], x);
      NormalizeCorrectMembers(tail, x);
      assert SomeEntryNormalizesTo(xs, x) <==> NormalizesTo(xs[0], x) || SomeEntryNormalizesTo(tail, x) by {
        if SomeEntryNormalizesTo(tail, x) {
          var k :| 0 <= k < |tail| && NormalizesTo(tail[k], x);
          assert xs[k + 1] == tail[k];
        }
        if SomeEntryNormalizesTo(xs, x) {
          var k :| 0 <= k < |xs| && NormalizesTo(xs[k], x);
          if k > 0 {
            assert tail[k - 1] == xs[k];
          }
        }
      }
    }
  }

  /** Normalising the correct list of `a + b` normalises `a` and `b` separately. */
  lemma {:induction false} NormalizeCorrectAppend(a: seq<JsonValue>, b: seq<JsonValue>)
    ensures NormalizeCorrect(a + b) == NormalizeCorrect(a) + NormalizeCorrect(b)
    decreases |a|
  {
    if a != [] {
      var head: seq<string> := if a[0].JString? then [Normalize(a[0].str)] else [];
      assert (a + b)[0] == a[0];
      assert (a + b)[1..] == a[1..] + b;
      assert NormalizeCorrect(a + b) == head + NormalizeCorrect(a[1..] + b);
      assert NormalizeCorrect(a) == head + NormalizeCorrect(a[1..]);
      NormalizeCorrectAppend(a[1..], b);
    } else {
      assert a + b == b;
    }
  }

  /** A non-string entry anywhere in `correct` is dropped without trace. */
  lemma NonStringDropped(a: seq<JsonValue>, v: JsonValue, b: seq<JsonValue>)
    requires !v.JString?
    ensures NormalizeCorrect(a + [v] + b) == NormalizeCorrect(a + b)
  {
    NormalizeCorrectAppend(a + [v], b);
    NormalizeCorrectAppend(a, [v]);
    NormalizeCorrectAppend(a, b);
    assert NormalizeCorrect([v]) == [];
  }

  /** The strings `ys` as JSON strings. */
  function AsJson(ys: seq<string>): (r: seq<JsonValue>)
    ensures |r| == |ys|
    ensures forall i :: 0 <= i < |ys| ==> r[i] == JString(ys[i])
  {
    if ys == [] then [] else [JString(ys[0])] + AsJson(ys[1..])
  }

  /** A string entry in front of `correct` puts its normalised form in front of the normalised list. */
  lemma NormalizeCorrectCons(x: string, xs: seq<JsonValue>)
    ensures NormalizeCorrect([JString(x)] + xs) == [Normalize(x)] + NormalizeCorrect(xs)
  {
    var js := [JString(x)] + xs;
    assert js[0] == JString(x);
    assert js[1..] == xs;
  }

  /** Normalising a list of already normalised strings gives it back unchanged. */
  lemma {:induction false} NormalizeCorrectStable(ys: seq<string>)
    requires forall k :: 0 <= k < |ys| ==> IsNormalized(ys[k])
    ensures NormalizeCorrect(AsJson(ys)) == ys
    decreases |ys|
  {
    if ys != [] {
      var tail := ys[1..];
      forall k | 0 <= k < |tail| ensures IsNormalized(tail[k]) {
        assert tail[k] == ys[k + 1];
      }
      NormalizeCorrectStable(tail);
      NormalizeFixpoint(ys[0]);
      NormalizeCorrectCons(ys[0], AsJson(tail));
      assert ys == [ys[0]] + tail;
    }
  }

  /** The correct list of a question is renormalised to itself. */
  lemma CorrectOfIdempotent(q: Question)
    ensures NormalizeCorrect(AsJson(CorrectOf(q))) == CorrectOf(q)
  {
    NormalizeCorrectNormalized(q.correct.GetOr([]));
    NormalizeCorrectStable(CorrectOf(q));
  }

  // ----- The comparison of each question type -----

  /** List questions: marks are awarded exactly when the normalised submitted list is a permutation of the normalised correct list. */
  lemma ListMatchIffPermutation(q: Question, form: FormData)
    requires RuleOf(q) == ListMatch
    ensures Awarded(q, form) <==> multiset(CleanList(GetList(form, Field(q.id)))) == multiset(CorrectOf(q))
  {
    SortEqualIff(CleanList(GetList(form, Field(q.id))), CorrectOf(q));
  }

  /** List questions: an empty submission is right only when there is no correct string. */
  lemma ListMatchEmptySubmission(q: Question, form: FormData)
    requires RuleOf(q) == ListMatch
    requires Field(q.id) !in form
    ensures Awarded(q, form) <==> CorrectOf(q) == []
  {
    ListMatchIffPermutation(q, form);
    if Awarded(q, form) {
      assert |CorrectOf(q)| == |multiset(CorrectOf(q))| == 0;
    }
  }

  /** List questions: the order and the letter case of the checked values do not matter. */
  lemma ListMatchIgnoresOrderAndCase(q: Question, form: FormData, form': FormData)
    requires RuleOf(q) == ListMatch
    requires multiset(CleanList(GetList(form, Field(q.id)))) == multiset(CleanList(GetList(form', Field(q.id))))
    ensures Awarded(q, form) <==> Awarded(q, form')
  {
    ListMatchIffPermutation(q, form);
    ListMatchIffPermutation(q, form');
  }

  /** List questions: submissions that differ value by value only in letter case are graded alike. */
  lemma ListMatchCaseInsensitive(q: Question, form: FormData, form': FormData)
    requires RuleOf(q) == ListMatch
    requires |GetList(form, Field(q.id))| == |GetList(form', Field(q.id))|
    requires forall i :: 0 <= i < |GetList(form, Field(q.id))| ==>
      CaseVariant(GetList(form, Field(q.id))[i], GetList(form', Field(q.id))[i])
    ensures Awarded(q, form) <==> Awarded(q, form')
  {
    var xs, ys := GetList(form, Field(q.id)), GetList(form', Field(q.id));
    CleanListAt(xs);
    CleanListAt(ys);
    forall i | 0 <= i < |xs| ensures CleanList(xs)[i] == CleanList(ys)[i] {
      NormalizeIgnoresCase(xs[i], ys[i]);
    }
    assert CleanList(xs) == CleanList(ys);
  }

  /** Single-value questions (radio and short/text): marks are awarded exactly when some string entry of `correct` normalises to the normalised first submitted value. */
  lemma SingleValueIff(q: Question, form: FormData)
    requires RuleOf(q) == OneOf || RuleOf(q) == TextMatch
    ensures Awarded(q, form) <==> SomeEntryNormalizesTo(q.correct.GetOr([]), Normalize(GetFirst(form, Field(q.id))))
  {
    NormalizeCorrectMembers(q.correct.GetOr([]), Normalize(GetFirst(form, Field(q.id))));
  }

  /** Single-value questions: submitted values that differ only in letter case are graded alike. */
  lemma SingleValueCaseInsensitive(q: Question, form: FormData, form': FormData)
    requires RuleOf(q) == OneOf || RuleOf(q) == TextMatch
    requires CaseVariant(GetFirst(form, Field(q.id)), GetFirst(form', Field(q.id)))
    ensures Awarded(q, form) <==> Awarded(q, form')
  {
    NormalizeIgnoresCase(GetFirst(form, Field(q.id)), GetFirst(form', Field(q.id)));
  }

  /** Radio questions: a missing field is graded as "" and is right only when some correct entry is blank. */
  lemma OneOfMissingField(q: Question, form: FormData)
    requires RuleOf(q) == OneOf
    requires Field(q.id) !in form
    ensures Awarded(q, form) <==> "" in CorrectOf(q)
  {
    assert Normalize("") == "" by { NormalizeFixpoint(""); }
  }

  /** Short/text questions: without a string in `correct` nothing is ever awarded, whatever is submitted. */
  lemma TextMatchNeedsCorrect(q: Question, form: FormData)
    requires RuleOf(q) == TextMatch
    requires forall v :: v in q.correct.GetOr([]) ==> !v.JString?
    ensures !Awarded(q, form)
  {
    SingleValueIff(q, form);
  }

  /** Short/text questions are graded exactly like radio questions: the non-empty guard never changes the outcome. */
  lemma TextGuardRedundant(q: Question, form: FormData)
    requires RuleOf(q) == TextMatch
    ensures Awarded(q, form) <==> Normalize(GetFirst(form, Field(q.id))) in CorrectOf(q)
  {
  }

  /** Unrecognised types record the literal and award nothing. */
  lemma UnrecognisedNeverScores(q: Question, form: FormData)
    requires RuleOf(q) == Unrecognised
    ensures !Awarded(q, form) && Earned(q, form) == 0
    ensures RecordedAnswer(q, form) == One(UnknownTypeText)
  {
  }

  /** The type is matched after lower-casing: "MCQ" is graded as an mcq question. */
  lemma UpperCaseTypeRecognised(q: Question)
    requires q.qtype == Some("MCQ")
    ensures RuleOf(q) == ListMatch || RuleOf(q) == OneOf
  {
    assert LowerStr("MCQ") == "mcq";
  }

  /** Two questions whose types differ only in letter case are graded and recorded alike. */
  lemma TypeCaseInsensitive(q: Question, t: string, t': string, form: FormData)
    requires CaseVariant(t, t')
    ensures Awarded(q.(qtype := Some(t)), form) <==> Awarded(q.(qtype := Some(t')), form)
    ensures RecordedAnswer(q.(qtype := Some(t)), form) == RecordedAnswer(q.(qtype := Some(t')), form)
  {
    LowerStrEqIff(t, t');
    var q1, q2 := q.(qtype := Some(t)), q.(qtype := Some(t'));
    assert RuleOf(q1) == RuleOf(q2);
    match RuleOf(q1)
    case ListMatch =>
    case OneOf =>
    case TextMatch =>
    case Unrecognised =>
  }

  /** The input style is not lower-cased: an mcq question with style "Checkbox" is graded as a radio question. */
  lemma StyleCaseSensitive(q: Question)
    requires q.qtype == Some("mcq") && q.inputStyle == Some("Checkbox")
    ensures RuleOf(q) == OneOf
  {
    assert LowerStr("mcq") == "mcq";
  }

  /** Single-value questions record the normalised answer, list questions the raw values. */
  lemma RecordedForm(q: Question, form: FormData)
    ensures RuleOf(q) == ListMatch ==> RecordedAnswer(q, form) == Many(GetList(form, Field(q.id)))
    ensures RuleOf(q) == OneOf || RuleOf(q) == TextMatch ==>
      RecordedAnswer(q, form).One? && IsNormalized(RecordedAnswer(q, form).text)
  {
    NormalizeSpec(GetFirst(form, Field(q.id)));
  }

  /** A recorded single answer can never be mistaken for the unknown-type literal, which starts with a capital. */
  lemma RecordedNeverUnknownLiteral(q: Question, form: FormData)
    requires RuleOf(q) == OneOf || RuleOf(q) == TextMatch
    ensures RecordedAnswer(q, form) != One(UnknownTypeText)
  {
    RecordedForm(q, form);
    assert IsUpper(UnknownTypeText[0]);
  }

  // ----- Examples -----

  lemma CleanListPair(s1: string, s2: string)
    ensures CleanList([s1, s2]) == [Normalize(s1), Normalize(s2)]
  {
  }

  lemma NormalizeCorrectPair(s1: string, s2: string)
    ensures NormalizeCorrect([JString(s1), JString(s2)]) == [Normalize(s1), Normalize(s2)]
  {
    assert [JString(s1), JString(s2)][1..] == [JString(s2)];
  }

  /** Two checked values given in the other order and in another letter case still earn the marks. */
  lemma SwappedCheckboxAnswers(q: Question, form: FormData, x: string, y: string, x': string, y': string)
    requires RuleOf(q) == ListMatch
    requires q.correct == Some([JString(x), JString(y)])
    requires GetList(form, Field(q.id)) == [y', x']
    requires CaseVariant(x', x) && CaseVariant(y', y)
    ensures Awarded(q, form)
  {
    NormalizeIgnoresCase(x', x);
    NormalizeIgnoresCase(y', y);
    CleanListPair(y', x');
    NormalizeCorrectPair(x, y);
    assert multiset([Normalize(y), Normalize(x)]) == multiset([Normalize(x), Normalize(y)]);
    ListMatchIffPermutation(q, form);
  }

  /** The checked values "B" and "A" against the correct answers "a" and "b" earn the marks of a checkbox question. */
  lemma CheckboxSwappedCaseExample(q: Question)
    requires q.qtype == Some("checkbox") && q.correct == Some([JString("a"), JString("b")])
    ensures Awarded(q, map[Field(q.id) := ["B", "A"]])
  {
    CheckboxRule(q);
    var form := map[Field(q.id) := ["B", "A"]];
    assert GetList(form, Field(q.id)) == ["B", "A"];
    assert CaseVariant("A", "a") && CaseVariant("B", "b");
    SwappedCheckboxAnswers(q, form, "a", "b", "A", "B");
  }

  /** For an mcq question with input style "checkbox", the checked values "B" and "A" against the correct answers "a" and "b" earn the marks. */
  lemma McqCheckboxSwappedCaseExample(q: Question)
    requires q.qtype == Some("mcq") && q.inputStyle == Some("checkbox")
    requires q.correct == Some([JString("a"), JString("b")])
    ensures Awarded(q, map[Field(q.id) := ["B", "A"]])
  {
    assert LowerStr("mcq") == "mcq";
    var form := map[Field(q.id) := ["B", "A"]];
    assert GetList(form, Field(q.id)) == ["B", "A"];
    assert CaseVariant("A", "a") && CaseVariant("B", "b");
    SwappedCheckboxAnswers(q, form, "a", "b", "A", "B");
  }

  /** A question of type "checkbox" is graded by comparing lists. */
  lemma CheckboxRule(q: Question)
    requires q.qtype == Some("checkbox")
    ensures RuleOf(q) == ListMatch
  {
    var t := TypeOf(q);
    assert t == "checkbox" by {
      LowerStrNoUpper("checkbox");
    }
    assert t != "mcq" by {
      assert |t| == 8;
    }
  }

  /** "Paris " normalises to "paris", and "paris" to itself. */
  lemma NormalizeParis()
    ensures Normalize("Paris ") == "paris"
    ensures Normalize("paris") == "paris"
  {
    assert TrimLeft("Paris ") == "Paris ";
    assert TrimRight("Paris ") == "Paris";
    assert LowerStr("Paris") == "paris";
    assert TrimLeft("paris") == "paris";
    assert TrimRight("paris") == "paris";
    assert LowerStr("paris") == "paris";
  }

  /** An mcq question without an input style is graded as a radio question. */
  lemma RadioRule(q: Question)
    requires q.qtype == Some("mcq") && q.inputStyle == None
    ensures RuleOf(q) == OneOf
  {
    assert LowerStr("mcq") == "mcq";
  }

  /** The submitted value "Paris " against the correct answer "paris" earns the marks of a radio question. */
  lemma RadioTrimAndCaseExample(q: Question)
    requires q.qtype == Some("mcq") && q.inputStyle == None && q.correct == Some([JString("paris")])
    ensures Awarded(q, map[Field(q.id) := ["Paris "]])
  {
    RadioRule(q);
    NormalizeParis();
    assert NormalizeCorrect([JString("paris")]) == ["paris"];
  }
}
