/** The grading half of the quiz page. A question's rendered inputs are
    abstracted to their "checked" flags, indexed by choice position (the
    value of input `i` is `i`, read back with `parseInt`). */
module Quiz {
  import opened Wrappers

  /** The JSON values a question's `answer` can hold. */
  datatype Json =
    | JNull
    | JNumber(n: int)
    | JString(s: string)
    | JArray(items: seq<Json>)
    | JObject(entries: map<string, Json>)

  /** The fields of a question record the quiz page reads. */
  datatype Record = Record(kind: string, answer: Json)

  /** The two question classes the factory builds. */
  datatype Question = SingleChoice(answer: Json) | MultipleChoice(answer: Json)

  /** Input `i` is the first checked one. */
  predicate IsFirstChecked(checked: seq<bool>, i: int) {
    0 <= i < |checked| && checked[i] && forall j :: 0 <= j < i ==> !checked[j]
  }

  predicate NoneChecked(checked: seq<bool>) {
    forall j :: 0 <= j < |checked| ==> !checked[j]
  }

  /** The loop of `SingleChoice.check`: the index of the first checked
      input, or `null` when none is. */
  function FirstChecked(checked: seq<bool>): (r: Option<nat>)
    ensures r.Some? <==> !NoneChecked(checked)
    ensures r.Some? ==> IsFirstChecked(checked, r.value)
  {
    if |checked| == 0 then None
    else if checked[0] then Some(0)
    else
      match FirstChecked(checked[1..])
      case None =>
        assert forall j :: 1 <= j < |checked| ==> checked[j] == checked[1..][j - 1];
        None
      case Some(k) =>
        assert forall j :: 1 <= j <= k + 1 ==> checked[j] == checked[1..][j - 1];
        Some(k + 1)
  }

  /** `SingleChoice.check`: the selection, a number or `null`, is compared
      with `===` to the answer. For a numeric answer this holds exactly when
      that index is the first checked input; for `null`, exactly when no
      input is checked; a string, array or object answer never matches. */
  function SingleChoiceCheck(answer: Json, checked: seq<bool>): (r: bool)
    ensures answer.JNumber? ==> (r <==> IsFirstChecked(checked, answer.n))
    ensures answer.JNull? ==> (r <==> NoneChecked(checked))
    ensures !answer.JNumber? && !answer.JNull? ==> !r
  {
    match FirstChecked(checked)
    case None => answer == JNull
    case Some(i) => answer == JNumber(i)
  }

  /** Only the first checked input counts: flags after it do not change the grade. */
  lemma SingleChoiceIgnoresLaterInputs(answer: Json, c1: seq<bool>, c2: seq<bool>, i: int)
    requires IsFirstChecked(c1, i) && i < |c2| && c1[..i + 1] == c2[..i + 1]
    ensures SingleChoiceCheck(answer, c1) == SingleChoiceCheck(answer, c2)
  {
    assert forall j :: 0 <= j <= i ==> c1[j] == c1[..i + 1][j] && c2[j] == c2[..i + 1][j];
    assert IsFirstChecked(c2, i);
    assert FirstChecked(c1) == Some(i) && FirstChecked(c2) == Some(i);
  }

  /** The set of checked indices, as the loop of `MultipleChoice.check`
      builds it over the first `n` inputs. */
  function Selected(checked: seq<bool>, n: nat): (s: set<Json>)
    requires n <= |checked|
    ensures forall x :: x in s <==> x.JNumber? && 0 <= x.n < n && checked[x.n]
  {
    if n == 0 then {}
    else Selected(checked, n - 1) + (if checked[n - 1] then {JNumber(n - 1)} else {})
  }

  /** `new Immutable.Set(answer)`: the distinct elements of the array; `null`
      gives the empty set. */
  function AnswerSet(answer: Json): (s: set<Json>)
    requires answer.JNull? || answer.JArray?
    ensures answer.JNull? ==> s == {}
    ensures answer.JArray? ==> forall x :: x in s <==> x in answer.items
  {
    if answer.JNull? then {} else set x | x in answer.items
  }

  /** `MultipleChoice.check`: the checked indices and the answer's elements
      are equal as sets. Spelled out: every checked index is in the answer,
      every unchecked one is not, and the answer holds nothing but indices of
      inputs. */
  function MultipleChoiceCheck(answer: Json, checked: seq<bool>): (r: bool)
    requires answer.JNull? || answer.JArray?
    ensures r <==> && (forall i :: 0 <= i < |checked| ==> (checked[i] <==> JNumber(i) in AnswerSet(answer)))
                   && (forall x :: x in AnswerSet(answer) ==> x.JNumber? && 0 <= x.n < |checked|)
  {
    var selected := Selected(checked, |checked|);
    var expected := AnswerSet(answer);
    if selected == expected then true
    else
      assert exists x :: (x in selected && x !in expected) || (x !in selected && x in expected);
      false
  }

  /** Order and repetition in the answer array do not matter. */
  lemma MultipleChoiceIgnoresOrderAndDuplicates(a: seq<Json>, b: seq<Json>, checked: seq<bool>)
    requires forall x :: x in a <==> x in b
    ensures MultipleChoiceCheck(JArray(a), checked) == MultipleChoiceCheck(JArray(b), checked)
  {
    assert AnswerSet(JArray(a)) == AnswerSet(JArray(b));
  }

  /** With a non-empty answer, checking nothing is wrong. */
  lemma MultipleChoiceEmptySelectionFails(items: seq<Json>, checked: seq<bool>)
    requires |items| > 0 && NoneChecked(checked)
    ensures !MultipleChoiceCheck(JArray(items), checked)
  {
    assert items[0] in AnswerSet(JArray(items));
  }

  /** A selection that misses an answer index, or adds one that is not in
      the answer, is wrong. */
  lemma MultipleChoiceSubsetOrSupersetFails(items: seq<Json>, checked: seq<bool>, i: nat)
    requires i < |checked|
    requires (JNumber(i) in items && !checked[i]) || (JNumber(i) !in items && checked[i])
    ensures !MultipleChoiceCheck(JArray(items), checked)
  {
  }

  /** The factory's `switch`: the two known type tags build their class;
      any other type throws. */
  function Build(r: Record): (q: Result<Question>)
    ensures q.Ok? <==> r.kind == "single_choice" || r.kind == "multiple_choice"
    ensures q.Ok? ==> q.value.answer == r.answer
    ensures q.Ok? ==> (q.value.SingleChoice? <==> r.kind == "single_choice")
    ensures q.Err? ==> q.error == "Unknown question type: " + r.kind
  {
    if r.kind == "single_choice" then Ok(SingleChoice(r.answer))
    else if r.kind == "multiple_choice" then Ok(MultipleChoice(r.answer))
    else Err("Unknown question type: " + r.kind)
  }

  /** `questions.map(...)` in the factory: the first record with an unknown
      type aborts the whole quiz; otherwise one question per record, in order. */
  function BuildAll(records: seq<Record>): (r: Result<seq<Question>>)
    ensures r.Ok? <==> forall k :: 0 <= k < |records| ==> Build(records[k]).Ok?
    ensures r.Ok? ==> |r.value| == |records| && forall k :: 0 <= k < |records| ==> r.value[k] == Build(records[k]).value
    ensures r.Err? ==> exists k :: && 0 <= k < |records| && Build(records[k]).Err?
                                   && r.error == Build(records[k]).error
                                   && forall j :: 0 <= j < k ==> Build(records[j]).Ok?
  {
    var built := seq(|records|, k requires 0 <= k < |records| => Build(records[k]));
    var r := FirstErrorOrAll(built);
    assert forall k :: 0 <= k < |records| ==> built[k] == Build(records[k]);
    if r.Err? then
      var k :| && 0 <= k < |built| && built[k].Err? && r.error == built[k].error
               && forall j :: 0 <= j < k ==> built[j].Ok?;
      assert Build(records[k]).Err?;
      r
    else r
  }

  /** The single-choice check comparing the text of the first checked
      option with the answer, as the exported answers require. */
  function SingleChoiceCheckByText(choices: seq<string>, answer: Json, checked: seq<bool>): (r: bool)
    requires |checked| == |choices|
    ensures answer.JString? ==> (r <==> exists i :: IsFirstChecked(checked, i) && choices[i] == answer.s)
    ensures answer.JNull? ==> (r <==> NoneChecked(checked))
    ensures !answer.JString? && !answer.JNull? ==> !r
  {
    match FirstChecked(checked)
    case None => answer == JNull
    case Some(i) =>
      assert forall j :: IsFirstChecked(checked, j) ==> j == i;
      answer == JString(choices[i])
  }

  /** The texts of the checked options. */
  function SelectedText(choices: seq<string>, checked: seq<bool>): (s: set<Json>)
    requires |checked| == |choices|
    ensures forall x :: x in s <==> exists i :: 0 <= i < |choices| && checked[i] && x == JString(choices[i])
  {
    set i | 0 <= i < |choices| && checked[i] :: JString(choices[i])
  }

  /** The multiple-choice check comparing the texts of the checked options
      with the answer, as sets. */
  function MultipleChoiceCheckByText(choices: seq<string>, answer: Json, checked: seq<bool>): (r: bool)
    requires |checked| == |choices|
    requires answer.JNull? || answer.JArray?
    ensures r <==> && (forall i :: 0 <= i < |choices| && checked[i] ==> JString(choices[i]) in AnswerSet(answer))
                   && (forall x :: x in AnswerSet(answer) ==> x in SelectedText(choices, checked))
  {
    SelectedText(choices, checked) == AnswerSet(answer)
  }

  /** Ranking and classification records are rejected by the factory. */
  lemma RankingAndClassificationRejected(answer: Json)
    ensures Build(Record("ranking", answer)).Err?
    ensures Build(Record("classification", answer)).Err?
  {
  }

  /** A multiple-choice question can be graded when its answer is an array or `null`. */
  predicate Gradable(q: Question) {
    q.MultipleChoice? ==> q.answer.JNull? || q.answer.JArray?
  }

  /** `q.check()` dispatched on the question's class. */
  function Check(q: Question, checked: seq<bool>): bool
    requires Gradable(q)
  {
    match q
    case SingleChoice(a) => SingleChoiceCheck(a, checked)
    case MultipleChoice(a) => MultipleChoiceCheck(a, checked)
  }

  /** `self.check()`: one grade per question, in the order of the questions. */
  function CheckAll(questions: seq<Question>, checked: seq<seq<bool>>): (r: seq<bool>)
    requires |checked| == |questions|
    requires forall k :: 0 <= k < |questions| ==> Gradable(questions[k])
    ensures |r| == |questions|
    ensures forall k :: 0 <= k < |r| ==> r[k] == Check(questions[k], checked[k])
  {
    if |questions| == 0 then []
    else [Check(questions[0], checked[0])] + CheckAll(questions[1..], checked[1..])
  }
}
