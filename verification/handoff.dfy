/** What the quiz page makes of the records the exporter writes. The exporter
    stores answers as the chosen strings, while the quiz page compares them with
    input indices, so exported choice questions never grade as written. */
module Handoff {
  import opened Wrappers
  import Sequences
  import Fields
  import Rows
  import Quiz

  /** The JSON form of an exported answer. */
  function AnswerJson(a: Fields.Answer): (j: Quiz.Json)
    ensures a.SingleAnswer? ==> j.JString?
    ensures a.MultipleAnswer? || a.RankingAnswer? ==> j.JArray?
    ensures a.MultipleAnswer? ==> |j.items| == |a.selection| && forall k :: 0 <= k < |j.items| ==> j.items[k].JString?
  {
    match a
    case SingleAnswer(c) => Quiz.JString(c)
    case MultipleAnswer(items) => Quiz.JArray(seq(|items|, k requires 0 <= k < |items| => Quiz.JString(items[k])))
    case RankingAnswer(order) => Quiz.JArray(seq(|order|, k requires 0 <= k < |order| => Quiz.JString(order[k])))
    case ClassificationAnswer(m) => Quiz.JObject(map e | e in m :: Quiz.JString(m[e]))
  }

  /** The record the quiz page reads from an exported question. */
  function ToRecord(q: Rows.Question): (r: Quiz.Record)
    ensures r.kind == Fields.KindTag(q.kind)
    ensures q.answer.None? <==> r.answer.JNull?
  {
    Quiz.Record(Fields.KindTag(q.kind), if q.answer.Some? then AnswerJson(q.answer.value) else Quiz.JNull)
  }

  /** The factory accepts exactly the exported single and multiple choice
      questions and rejects ranking and classification ones. */
  lemma FactoryAcceptsOnlyChoiceKinds(q: Rows.Question)
    ensures Quiz.Build(ToRecord(q)).Ok? <==> q.kind == Fields.SingleChoice || q.kind == Fields.MultipleChoice
  {
  }

  /** An exported single-choice answer is a string, which `===` never
      equates with an index: the question grades false whatever is checked. */
  lemma ExportedSingleChoiceNeverCorrect(q: Rows.Question, checked: seq<bool>)
    requires q.kind == Fields.SingleChoice && q.answer.Some? && q.answer.value.SingleAnswer?
    ensures Quiz.Build(ToRecord(q)).Ok?
    ensures !Quiz.Check(Quiz.Build(ToRecord(q)).value, checked)
  {
  }

  /** An exported multiple-choice answer is an array of strings, never equal
      to a set of indices unless both are empty. */
  lemma ExportedMultipleChoiceCorrectOnlyWhenEmpty(q: Rows.Question, checked: seq<bool>)
    requires q.kind == Fields.MultipleChoice && q.answer.Some? && q.answer.value.MultipleAnswer?
    ensures Quiz.Build(ToRecord(q)).Ok?
    ensures Quiz.Check(Quiz.Build(ToRecord(q)).value, checked) <==>
              |q.answer.value.selection| == 0 && Quiz.NoneChecked(checked)
  {
    var items := AnswerJson(q.answer.value).items;
    if |items| > 0 {
      assert items[0] in Quiz.AnswerSet(Quiz.JArray(items));
    } else {
      assert Quiz.AnswerSet(Quiz.JArray(items)) == {};
    }
  }

  /** With the options distinct, grading the exported single-choice answer
      by text is correct exactly when the first checked input is the
      answer's position among the options. */
  lemma ExportedSingleChoiceGradedByText(options: seq<string>, choice: string, checked: seq<bool>)
    requires Sequences.Distinct(options) && choice in options && |checked| == |options|
    ensures Quiz.SingleChoiceCheckByText(options, AnswerJson(Fields.SingleAnswer(choice)), checked)
            <==> Quiz.IsFirstChecked(checked, Sequences.IndexOf(options, choice))
  {
    var p := Sequences.IndexOf(options, choice);
    Sequences.FirstOccurrencesIffDistinct(options);
    assert Sequences.FirstOccurrences(options, |options|);
    if Quiz.SingleChoiceCheckByText(options, Quiz.JString(choice), checked) {
      var i :| Quiz.IsFirstChecked(checked, i) && options[i] == choice;
      assert Sequences.IndexOf(options, options[i]) == i;
    }
  }

  /** With the options distinct and the selection drawn from them, grading
      the exported multiple-choice answer by text is correct exactly when
      the checked inputs are the positions of the selected options. */
  lemma ExportedMultipleChoiceGradedByText(options: seq<string>, selection: seq<string>, checked: seq<bool>)
    requires Sequences.Distinct(options) && |checked| == |options|
    requires forall k :: 0 <= k < |selection| ==> selection[k] in options
    ensures var answer := AnswerJson(Fields.MultipleAnswer(selection));
            Quiz.MultipleChoiceCheckByText(options, answer, checked)
            <==> forall i :: 0 <= i < |options| ==> (checked[i] <==> options[i] in selection)
  {
    var answer := AnswerJson(Fields.MultipleAnswer(selection));
    var expected := Quiz.AnswerSet(answer);
    assert forall x :: x in expected <==> exists k :: 0 <= k < |selection| && x == Quiz.JString(selection[k]) by {
      forall x
        ensures x in expected <==> exists k :: 0 <= k < |selection| && x == Quiz.JString(selection[k])
      {
        if x in expected {
          var k :| 0 <= k < |answer.items| && answer.items[k] == x;
          assert x == Quiz.JString(selection[k]);
        }
        if exists k :: 0 <= k < |selection| && x == Quiz.JString(selection[k]) {
          var k :| 0 <= k < |selection| && x == Quiz.JString(selection[k]);
          assert answer.items[k] == x;
        }
      }
    }
    forall i | 0 <= i < |options|
      ensures Quiz.JString(options[i]) in expected <==> options[i] in selection
    {
      if options[i] in selection {
        var k :| 0 <= k < |selection| && selection[k] == options[i];
        assert Quiz.JString(options[i]) == Quiz.JString(selection[k]);
      }
    }
    if forall i :: 0 <= i < |options| ==> (checked[i] <==> options[i] in selection) {
      forall x | x in expected
        ensures x in Quiz.SelectedText(options, checked)
      {
        var k :| 0 <= k < |selection| && x == Quiz.JString(selection[k]);
        var i :| 0 <= i < |options| && options[i] == selection[k];
        assert checked[i];
      }
    }
  }
}
