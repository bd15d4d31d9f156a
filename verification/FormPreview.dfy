/**
 The respondent view: the answer map and its per-question updates, the required-question
 check and payload assembly behind Submit, and the pure derivations that drive the input
 widgets of each question kind.
 */
module FormPreview {
  import opened Wrappers
  import opened Types
  import opened Strings
  import ClozeSplit

  /** The answers stored for one question: item id, blank key or sub-question id to text.
      Every handler stores such a mapping, never a bare value. */
  type SubAnswers = map<string, string>

  /** The respondent's answers so far, keyed by question id. */
  type Answers = map<string, SubAnswers>

  // ----- answer state -----

  /** Records `value` as the answers of question `questionId`; no other question's entry changes. */
  function HandleResponseChange(a: Answers, questionId: string, value: SubAnswers): (r: Answers)
    ensures r.Keys == a.Keys + {questionId}
    ensures r[questionId] == value
    ensures forall k :: k in a && k != questionId ==> r[k] == a[k]
  {
    a[questionId := value]
  }

  /** `responses[question.id] || {}`: the stored mapping, or an empty one. */
  function StoredFor(a: Answers, questionId: string): (m: SubAnswers)
    ensures questionId in a ==> m == a[questionId]
    ensures questionId !in a ==> m == map[]
  {
    if questionId in a then a[questionId] else map[]
  }

  /** What a question's inputs read after its entry is replaced: the new mapping for that
      question, the old one for every other question. */
  lemma StoredAfterChange(a: Answers, questionId: string, value: SubAnswers, other: string)
    ensures StoredFor(HandleResponseChange(a, questionId, value), questionId) == value
    ensures other != questionId ==>
      StoredFor(HandleResponseChange(a, questionId, value), other) == StoredFor(a, other)
  {
  }

  /** `{ ...userAnswers, [key]: value }` stored back under the question: one key of the
      question's mapping is set, its other keys and all other questions are kept. */
  function MergeAnswer(a: Answers, questionId: string, key: string, value: string): (r: Answers)
    ensures r.Keys == a.Keys + {questionId}
    ensures r[questionId].Keys == StoredFor(a, questionId).Keys + {key}
    ensures r[questionId][key] == value
    ensures forall k :: k in StoredFor(a, questionId) && k != key ==> r[questionId][k] == StoredFor(a, questionId)[k]
    ensures forall k :: k in a && k != questionId ==> r[k] == a[k]
  {
    HandleResponseChange(a, questionId, StoredFor(a, questionId)[key := value])
  }

  /** `userAnswers[key] || ''`: what an input shows for `key` of a question. */
  function ShownValue(a: Answers, questionId: string, key: string): (v: string)
    ensures questionId in a && key in a[questionId] ==> v == a[questionId][key]
    ensures !(questionId in a && key in a[questionId]) ==> v == ""
  {
    if questionId in a && key in a[questionId] then a[questionId][key] else ""
  }

  /** An input shows what was last typed into it, and typing into one input changes what no
      other input shows. */
  lemma MergeThenShown(a: Answers, questionId: string, key: string, value: string, otherQuestion: string, otherKey: string)
    ensures ShownValue(MergeAnswer(a, questionId, key, value), questionId, key) == value
    ensures (otherQuestion, otherKey) != (questionId, key) ==>
      ShownValue(MergeAnswer(a, questionId, key, value), otherQuestion, otherKey) == ShownValue(a, otherQuestion, otherKey)
  {
  }

  // ----- submission -----

  /** The required questions without an entry in the answer map, in form order. Any stored
      mapping is truthy in JavaScript, even an empty one, so only absence counts. */
  function MissingRequired(qs: seq<Question>, a: Answers): (r: seq<Question>)
    ensures |r| <= |qs|
    ensures forall i :: 0 <= i < |r| ==> r[i].required && r[i].id !in a
  {
    if |qs| == 0 then []
    else (if qs[0].required && qs[0].id !in a then [qs[0]] else []) + MissingRequired(qs[1..], a)
  }

  /** The missing list holds exactly the required questions that have no answer entry. */
  lemma {:induction false} MissingRequiredExact(qs: seq<Question>, a: Answers)
    ensures forall q :: q in MissingRequired(qs, a) <==> q in qs && q.required && q.id !in a
  {
    if |qs| > 0 {
      MissingRequiredExact(qs[1..], a);
      assert qs == [qs[0]] + qs[1..];
    }
  }

  /** One element of the submitted payload. */
  datatype Entry = Entry(questionId: string, answers: SubAnswers)

  /** `Object.entries(responses).map(...)`: one entry per answered question carrying the stored
      mapping as is; the order of entries carries no meaning. No expected answer is consulted. */
  method BuildPayload(a: Answers) returns (p: seq<Entry>)
    ensures |p| == |a|
    ensures forall i :: 0 <= i < |p| ==> p[i].questionId in a && p[i].answers == a[p[i].questionId]
    ensures forall k :: k in a ==> exists i :: 0 <= i < |p| && p[i].questionId == k
    ensures forall i, j :: 0 <= i < j < |p| ==> p[i].questionId != p[j].questionId
  {
    p := [];
    var rest := a.Keys;
    while rest != {}
      invariant rest <= a.Keys
      invariant |p| + |rest| == |a.Keys|
      invariant forall i :: 0 <= i < |p| ==> p[i].questionId in a && p[i].questionId !in rest && p[i].answers == a[p[i].questionId]
      invariant forall k :: k in a && k !in rest ==> exists i :: 0 <= i < |p| && p[i].questionId == k
      invariant forall i, j :: 0 <= i < j < |p| ==> p[i].questionId != p[j].questionId
      decreases |rest|
    {
      var k :| k in rest;
      var before := p;
      p := p + [Entry(k, a[k])];
      assert forall i :: 0 <= i < |before| ==> p[i] == before[i];
      assert p[|before|].questionId == k;
      rest := rest - {k};
    }
  }

  /** What pressing Submit does: nothing without a loaded form, a warning when a required
      question is unanswered (no payload is built), otherwise the payload to send. */
  datatype SubmitOutcome = NoForm | MissingAnswers(missing: seq<Question>) | Send(payload: seq<Entry>)

  method HandleSubmit(form: Option<Form>, a: Answers) returns (o: SubmitOutcome)
    ensures o.NoForm? <==> form.None?
    ensures o.MissingAnswers? <==> form.Some? && exists q :: q in form.value.questions && q.required && q.id !in a
    ensures o.MissingAnswers? ==> |o.missing| > 0
    ensures o.MissingAnswers? ==>
      forall q :: q in o.missing <==> q in form.value.questions && q.required && q.id !in a
    ensures o.Send? ==> |o.payload| == |a|
    ensures o.Send? ==> forall i :: 0 <= i < |o.payload| ==>
      o.payload[i].questionId in a && o.payload[i].answers == a[o.payload[i].questionId]
    ensures o.Send? ==> forall k :: k in a ==> exists i :: 0 <= i < |o.payload| && o.payload[i].questionId == k
  {
    if form.None? {
      return NoForm;
    }
    var missing := MissingRequired(form.value.questions, a);
    MissingRequiredExact(form.value.questions, a);
    if |missing| > 0 {
      assert missing[0] in missing;
      return MissingAnswers(missing);
    }
    var payload := BuildPayload(a);
    return Send(payload);
  }

  // ----- cloze rendering -----

  /** The answer key of the i-th input slot of a cloze question. */
  function BlankKey(i: nat): (key: string) {
    "blank_" + NatToString(i)
  }

  /** Different slots never share an answer key. */
  lemma BlankKeysDistinct(i: nat, j: nat)
    ensures i != j ==> BlankKey(i) != BlankKey(j)
  {
    if BlankKey(i) == BlankKey(j) {
      assert NatToString(i) == BlankKey(i)[6..];
      assert NatToString(j) == BlankKey(j)[6..];
      NatToStringInjective(i, j);
    }
  }

  /** The literal text segments of a cloze question and the answer keys of the input slots
      placed between them. */
  datatype ClozeView = ClozeView(segments: seq<string>, slots: seq<string>)

  /** Cloze rendering depends on the text alone: one segment more than there are markers,
      one slot per marker, whatever the declared blanks are. */
  function RenderCloze(text: string): (v: ClozeView)
    ensures v.segments == ClozeSplit.Split(text)
    ensures |v.segments| == ClozeSplit.CountMarkers(text) + 1
    ensures |v.slots| == ClozeSplit.CountMarkers(text)
    ensures ClozeSplit.Join(v.segments) == text
    ensures forall i :: 0 <= i < |v.segments| ==> !ClozeSplit.HasMarker(v.segments[i])
    ensures forall i :: 0 <= i < |v.slots| ==> v.slots[i] == BlankKey(i)
  {
    var segments := ClozeSplit.Split(text);
    ClozeSplit.JoinSplit(text);
    ClozeSplit.SegmentsMarkerFree(text);
    ClozeView(segments, seq(|segments| - 1, i requires 0 <= i < |segments| - 1 => BlankKey(i)))
  }

  /** The documented scenario: two markers, three segments, slots `blank_0` and `blank_1`;
      with three declared blanks there are still two slots. */
  lemma ClozeScenario(q: Question)
    requires q.body == Cloze("A _____ B _____ C", [Blank("1", "x"), Blank("2", "y"), Blank("3", "z")])
    ensures RenderCloze(q.body.text) == ClozeView(["A ", " B ", " C"], ["blank_0", "blank_1"])
    ensures |RenderCloze(q.body.text).slots| != |q.body.blanks|
  {
    var text := q.body.text;
    ScenarioSegments(text);
    ScenarioSlots(text);
  }

  lemma ScenarioSegments(text: string)
    requires text == "A _____ B _____ C"
    ensures ClozeSplit.Split(text) == ["A ", " B ", " C"]
  {
    ClozeSplit.SplitTwoMarkers("A ", " B ", " C");
    assert text == "A " + ClozeSplit.Marker + " B " + ClozeSplit.Marker + " C";
  }

  lemma ScenarioSlots(text: string)
    requires ClozeSplit.Split(text) == ["A ", " B ", " C"]
    ensures RenderCloze(text) == ClozeView(["A ", " B ", " C"], ["blank_0", "blank_1"])
  {
    var v := RenderCloze(text);
    assert |v.slots| == 2;
    assert v.slots[0] == BlankKey(0) == "blank_0";
    assert v.slots[1] == BlankKey(1) == "blank_1";
  }

  /** Markers are cut without overlap from the left: ten underscores are two markers around
      three empty segments, six are one marker and a trailing underscore. */
  lemma ClozeUnderscoreRuns()
    ensures RenderCloze("__________").segments == ["", "", ""]
    ensures RenderCloze("______").segments == ["", "_"]
  {
  }

  // ----- categorize rendering -----

  /** One item's row: its text and a selector offering the placeholder and every category. */
  datatype ItemRow = ItemRow(itemId: string, text: string, choices: seq<string>, selected: string)

  function RenderCategorize(q: Question, a: Answers): (rows: seq<ItemRow>)
    requires q.body.Categorize?
    ensures |rows| == |q.body.items|
    ensures forall k :: 0 <= k < |rows| ==>
      && rows[k].itemId == q.body.items[k].id
      && rows[k].text == q.body.items[k].text
      && |rows[k].choices| == |q.body.categories| + 1
      && rows[k].choices[0] == ""
      && rows[k].choices[1..] == q.body.categories
      && rows[k].selected == ShownValue(a, q.id, q.body.items[k].id)
  {
    seq(|q.body.items|, k requires 0 <= k < |q.body.items| =>
      ItemRow(q.body.items[k].id, q.body.items[k].text, [""] + q.body.categories,
              ShownValue(a, q.id, q.body.items[k].id)))
  }

  /** Choosing a category for one item shows it on that item's row and on no row of an item
      with another id; an item nobody answered shows the placeholder. */
  lemma ChooseCategory(q: Question, a: Answers, k: nat, category: string)
    requires q.body.Categorize? && k < |q.body.items|
    ensures var rows := RenderCategorize(q, MergeAnswer(a, q.id, q.body.items[k].id, category));
      && rows[k].selected == category
      && forall m :: 0 <= m < |rows| && q.body.items[m].id != q.body.items[k].id ==>
           rows[m].selected == RenderCategorize(q, a)[m].selected
    ensures q.id !in a ==> forall m :: 0 <= m < |q.body.items| ==> RenderCategorize(q, a)[m].selected == ""
  {
  }

  // ----- comprehension rendering -----

  datatype RadioOption = RadioOption(value: string, checked: bool)

  /** A free-text box for a text sub-question, otherwise a radio group over its options. */
  datatype Widget = TextBox(value: string) | Radios(options: seq<RadioOption>)

  function RenderSubQuestion(sq: SubQuestion, stored: SubAnswers): (w: Widget)
    ensures w.TextBox? <==> sq.kind == TextAnswer
    ensures w.TextBox? ==> w.value == (if sq.id in stored then stored[sq.id] else "")
    ensures w.Radios? ==> |w.options| == |sq.options.GetOr([])|
    ensures w.Radios? ==> forall j :: 0 <= j < |w.options| ==>
      && w.options[j].value == sq.options.GetOr([])[j]
      && (w.options[j].checked <==> sq.id in stored && stored[sq.id] == sq.options.GetOr([])[j])
  {
    if sq.kind == TextAnswer then
      TextBox(if sq.id in stored then stored[sq.id] else "")
    else
      var opts := sq.options.GetOr([]);
      Radios(seq(|opts|, j requires 0 <= j < |opts| =>
        RadioOption(opts[j], sq.id in stored && stored[sq.id] == opts[j])))
  }

  /** Selecting option j of a multiple-choice sub-question with distinct options checks
      that radio and no other: the group behaves as a single selection. */
  lemma SelectOption(q: Question, a: Answers, sq: SubQuestion, j: nat)
    requires sq.kind == MultipleChoice && sq.options.Some? && j < |sq.options.value|
    requires forall x, y :: 0 <= x < y < |sq.options.value| ==> sq.options.value[x] != sq.options.value[y]
    ensures var w := RenderSubQuestion(sq, StoredFor(MergeAnswer(a, q.id, sq.id, sq.options.value[j]), q.id));
      w.Radios? && forall i :: 0 <= i < |w.options| ==> (w.options[i].checked <==> i == j)
  {
  }

  /** Comprehension questions render one widget per sub-question, from the question's stored mapping. */
  function RenderComprehension(q: Question, a: Answers): (ws: seq<Widget>)
    requires q.body.Comprehension?
    ensures |ws| == |q.body.questions|
    ensures forall k :: 0 <= k < |ws| ==> (ws[k].TextBox? <==> q.body.questions[k].kind == TextAnswer)
    ensures forall k :: 0 <= k < |ws| ==> ws[k] == RenderSubQuestion(q.body.questions[k], StoredFor(a, q.id))
  {
    seq(|q.body.questions|, k requires 0 <= k < |q.body.questions| =>
      RenderSubQuestion(q.body.questions[k], StoredFor(a, q.id)))
  }

  /** Typing into the text box of sub-question k shows the typed text in that box, and
      leaves every other sub-question's widget of the question as it was. */
  lemma TypeIntoSubQuestion(q: Question, a: Answers, k: nat, value: string, j: nat)
    requires q.body.Comprehension? && k < |q.body.questions| && j < |q.body.questions|
    requires q.body.questions[k].kind == TextAnswer
    requires q.body.questions[j].id != q.body.questions[k].id
    ensures RenderComprehension(q, MergeAnswer(a, q.id, q.body.questions[k].id, value))[k] == TextBox(value)
    ensures RenderComprehension(q, MergeAnswer(a, q.id, q.body.questions[k].id, value))[j] ==
      RenderComprehension(q, a)[j]
  {
  }
}
