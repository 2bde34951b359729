/**
 Where a graded submission is kept and how the responses of a form are
 found again. A response is written to `<form_id>_<response_id>.json` in the
 responses directory; the responses of a form are the directory entries
 whose names start with the form id. The directory is modelled as the
 sequence of its file names, the form store as a map from form id to form.
 */
module Storage {
  import opened Text
  import opened Quiz

  /** A form document as stored under `<form_id>.json`. */
  datatype Form = Form(id: string, title: string, questions: seq<Question>)

  /** The response document written for one submission. */
  datatype Response = Response(
    responseId: string,
    formId: string,
    answers: map<string, Recorded>,
    score: int,
    total: int)

  /** The outcome of a submission: the form is unknown, or the response is saved under `fileName`. */
  datatype Submission = FormNotFound | Saved(fileName: string, response: Response)

  /** `f"{form_id}_{response_id}.json"`. */
  function ResponseFileName(formId: string, responseId: string): (name: string)
    ensures StartsWith(name, formId)
    ensures |name| == |formId| + |responseId| + 6
  {
    formId + "_" + responseId + ".json"
  }

  /** `[f for f in names if f.startswith(form_id)]`, in directory order. */
  function ResponsesFor(formId: string, names: seq<string>): (r: seq<string>)
    ensures |r| <= |names|
    ensures forall x :: x in r <==> x in names && StartsWith(x, formId)
  {
    if names == [] then []
    else
      assert names == [names[0]] + names[1..];
      (if StartsWith(names[0], formId) then [names[0]] else []) + ResponsesFor(formId, names[1..])
  }

  /** Within one form, distinct response ids give distinct file names. */
  lemma FileNameInjective(formId: string, r1: string, r2: string)
    ensures ResponseFileName(formId, r1) == ResponseFileName(formId, r2) <==> r1 == r2
  {
    var n1, n2 := ResponseFileName(formId, r1), ResponseFileName(formId, r2);
    assert r1 == n1[|formId| + 1..|n1| - 5];
    assert r2 == n2[|formId| + 1..|n2| - 5];
  }

  /** A saved response of a form is always listed for that form. */
  lemma SavedResponseListed(formId: string, responseId: string, names: seq<string>)
    requires ResponseFileName(formId, responseId) in names
    ensures ResponseFileName(formId, responseId) in ResponsesFor(formId, names)
  {
  }

  /** The filter also lists the responses of every form whose id merely extends the requested one. */
  lemma LongerIdOverMatched(formId: string, other: string, responseId: string, names: seq<string>)
    requires StartsWith(other, formId)
    requires ResponseFileName(other, responseId) in names
    ensures ResponseFileName(other, responseId) in ResponsesFor(formId, names)
  {
    var n := ResponseFileName(other, responseId);
    assert n[..|formId|] == other[..|formId|];
  }

  /** Listing "f1" picks up a response of form "f10". */
  lemma F10ListedUnderF1(responseId: string)
    ensures ResponseFileName("f10", responseId) in ResponsesFor("f1", [ResponseFileName("f10", responseId)])
  {
    LongerIdOverMatched("f1", "f10", responseId, [ResponseFileName("f10", responseId)]);
  }

  /** When the two ids have the same length, as the 8-character generated ids do, the prefix test is exact. */
  lemma EqualLengthIdsExact(formId: string, other: string, responseId: string)
    requires |other| == |formId|
    requires StartsWith(ResponseFileName(other, responseId), formId)
    ensures other == formId
  {
    var n := ResponseFileName(other, responseId);
    assert n[..|other|] == other;
  }

  /** A response key: the form and the response it was saved for. */
  datatype Key = Key(formId: string, responseId: string)

  /** The file names of the saved responses, in directory order. */
  function Names(saved: seq<Key>): (r: seq<string>)
    ensures |r| == |saved|
    ensures forall k :: 0 <= k < |saved| ==> r[k] == ResponseFileName(saved[k].formId, saved[k].responseId)
  {
    if saved == [] then []
    else [ResponseFileName(saved[0].formId, saved[0].responseId)] + Names(saved[1..])
  }

  /** If every saved response belongs to a form whose id has the length of the requested one,
      the listing holds exactly the responses of the requested form. */
  lemma ListingExactForEqualLengthIds(formId: string, saved: seq<Key>, k: nat)
    requires forall j :: 0 <= j < |saved| ==> |saved[j].formId| == |formId|
    requires k < |saved|
    ensures Names(saved)[k] in ResponsesFor(formId, Names(saved)) <==> saved[k].formId == formId
  {
    var names := Names(saved);
    if names[k] in ResponsesFor(formId, names) {
      EqualLengthIdsExact(formId, saved[k].formId, saved[k].responseId);
    }
  }

  /** `submit_form`: look the form up, grade the submission, and build the response saved under its file name. */
  method SubmitForm(forms: map<string, Form>, formId: string, responseId: string, fields: FormData)
    returns (out: Submission)
    ensures out.FormNotFound? <==> formId !in forms
    ensures out.Saved? ==>
      && out.fileName == ResponseFileName(formId, responseId)
      && out.response.formId == formId
      && out.response.responseId == responseId
      && out.response.score == Score(forms[formId].questions, fields)
      && out.response.total == TotalMarks(forms[formId].questions)
      && out.response.answers == Answers(forms[formId].questions, fields)
  {
    if formId !in forms {
      return FormNotFound;
    }
    var questions := forms[formId].questions;
    var answers, score, total := Grade(questions, fields);
    out := Saved(ResponseFileName(formId, responseId), Response(responseId, formId, answers, score, total));
  }

  /** Submitting the same answers twice gives two responses under distinct file names that differ only in their response id. */
  method SubmitTwice(forms: map<string, Form>, formId: string, r1: string, r2: string, fields: FormData)
    returns (first: Submission, second: Submission)
    requires r1 != r2
    ensures first.Saved? <==> second.Saved?
    ensures first.Saved? ==>
      && first.fileName != second.fileName
      && second.response == first.response.(responseId := r2)
  {
    first := SubmitForm(forms, formId, r1, fields);
    second := SubmitForm(forms, formId, r2, fields);
    FileNameInjective(formId, r1, r2);
  }
}
