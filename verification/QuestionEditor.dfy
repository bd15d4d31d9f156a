/**
 The per-question editor. Every handler builds a new version of the question it
 edits and hands it to the builder's `UpdateQuestion` under the question's own id;
 the functions here compute that new version. A body edit keeps the question's
 header (id, title, required flag, stored order, image) and its kind.
 None of the edits repairs cross-field consistency: renamed or removed categories
 strand the items that name them, and the blank list is never reconciled with the
 markers in the cloze text.
 */
module QuestionEditor {
  import opened Wrappers
  import opened Types
  import opened Seqs
  import opened Strings
  import ClozeSplit
  import FormBuilder

  /** `r` has `q`'s id, title, required flag, stored order and image. */
  predicate SameHeader(q: Question, r: Question) {
    r.id == q.id && r.title == q.title && r.required == q.required && r.order == q.order && r.image == q.image
  }

  // ----- header edits -----

  /** The two header fields the editor patches through its generic `updateQuestion`. */
  datatype Patch = SetTitle(title: string) | SetRequired(required: bool)

  /** `{ ...question, ...updates }`: the patched field changes, id, order, image and the
      kind-specific body stay. */
  function ApplyPatch(q: Question, p: Patch): (r: Question)
    ensures r.id == q.id && r.order == q.order && r.image == q.image && r.body == q.body
    ensures r.body.Kind() == q.body.Kind()
    ensures p.SetTitle? ==> r.title == p.title && r.required == q.required
    ensures p.SetRequired? ==> r.required == p.required && r.title == q.title
  {
    match p
    case SetTitle(t) => q.(title := t)
    case SetRequired(b) => q.(required := b)
  }

  /** After a successful upload the question's image becomes the returned path. */
  function SetImage(q: Question, path: string): (r: Question)
    ensures r.id == q.id && r.title == q.title && r.required == q.required && r.order == q.order
    ensures r.body == q.body
    ensures r.image == Some(path)
  {
    q.(image := Some(path))
  }

  // ----- categorize -----

  /** Writes `name` into position `k` of the category list; the items are not touched. */
  function RenameCategory(q: Question, k: nat, name: string): (r: Question)
    requires q.body.Categorize? && k < |q.body.categories|
    ensures SameHeader(q, r) && r.body.Categorize?
    ensures |r.body.categories| == |q.body.categories| && r.body.categories[k] == name
    ensures forall j :: 0 <= j < |q.body.categories| && j != k ==> r.body.categories[j] == q.body.categories[j]
    ensures r.body.items == q.body.items
  {
    q.(body := q.body.(categories := q.body.categories[k := name]))
  }

  /** Renaming a name that an item uses, and that appears nowhere else, strands that item. */
  lemma RenameStrandsItems(q: Question, k: nat, name: string, m: nat)
    requires q.body.Categorize? && k < |q.body.categories| && m < |q.body.items|
    requires q.body.items[m].category == q.body.categories[k] && name != q.body.categories[k]
    requires forall j :: 0 <= j < |q.body.categories| && j != k ==> q.body.categories[j] != q.body.categories[k]
    ensures !ItemsConsistent(RenameCategory(q, k, name).body)
  {
  }

  /** Drops the category at position `k`; items naming it are not touched. */
  function RemoveCategory(q: Question, k: nat): (r: Question)
    requires q.body.Categorize? && k < |q.body.categories|
    ensures SameHeader(q, r) && r.body.Categorize?
    ensures multiset(r.body.categories) + multiset{q.body.categories[k]} == multiset(q.body.categories)
    ensures r.body.categories == RemoveAt(q.body.categories, k)
    ensures r.body.items == q.body.items
  {
    RemoveAtMultiset(q.body.categories, k);
    q.(body := q.body.(categories := RemoveAt(q.body.categories, k)))
  }

  /** Appends the name `Category <n+1>`, where n is the current number of categories. */
  function AddCategory(q: Question): (r: Question)
    requires q.body.Categorize?
    ensures SameHeader(q, r) && r.body.Categorize?
    ensures |r.body.categories| == |q.body.categories| + 1
    ensures r.body.categories[..|q.body.categories|] == q.body.categories
    ensures r.body.categories[|q.body.categories|] == "Category " + NatToString(|q.body.categories| + 1)
    ensures r.body.items == q.body.items
  {
    q.(body := q.body.(categories := q.body.categories + ["Category " + NatToString(|q.body.categories| + 1)]))
  }

  /** The new name is derived from the count, not checked for distinctness: removing the first
      default category and adding one yields the same name twice. */
  lemma AddCategoryCanDuplicate(q: Question)
    requires q.body == FormBuilder.DefaultBody(CategorizeKind)
    ensures AddCategory(RemoveCategory(q, 0)).body.categories == ["Category 2", "Category 2"]
  {
    var removed := RemoveCategory(q, 0);
    assert removed.body.categories == ["Category 2"];
    assert NatToString(|removed.body.categories| + 1) == "2";
    assert "Category " + "2" == "Category 2";
  }

  /** Replaces the text of item `k`. */
  function EditItemText(q: Question, k: nat, text: string): (r: Question)
    requires q.body.Categorize? && k < |q.body.items|
    ensures SameHeader(q, r) && r.body.Categorize? && r.body.categories == q.body.categories
    ensures |r.body.items| == |q.body.items|
    ensures r.body.items[k].text == text
    ensures r.body.items[k].id == q.body.items[k].id && r.body.items[k].category == q.body.items[k].category
    ensures forall j :: 0 <= j < |q.body.items| && j != k ==> r.body.items[j] == q.body.items[j]
  {
    q.(body := q.body.(items := q.body.items[k := q.body.items[k].(text := text)]))
  }

  /** Points item `k` at `category`. */
  function SetItemCategory(q: Question, k: nat, category: string): (r: Question)
    requires q.body.Categorize? && k < |q.body.items|
    ensures SameHeader(q, r) && r.body.Categorize? && r.body.categories == q.body.categories
    ensures |r.body.items| == |q.body.items|
    ensures r.body.items[k].category == category
    ensures r.body.items[k].id == q.body.items[k].id && r.body.items[k].text == q.body.items[k].text
    ensures forall j :: 0 <= j < |q.body.items| && j != k ==> r.body.items[j] == q.body.items[j]
  {
    q.(body := q.body.(items := q.body.items[k := q.body.items[k].(category := category)]))
  }

  /** The item selector offers only current categories, so a choice from it keeps items consistent. */
  lemma SetItemCategoryKeepsConsistent(q: Question, k: nat, category: string)
    requires q.body.Categorize? && k < |q.body.items| && ItemsConsistent(q.body)
    requires category in q.body.categories
    ensures ItemsConsistent(SetItemCategory(q, k, category).body)
  {
  }

  /** Drops the item at position `k`. */
  function RemoveItem(q: Question, k: nat): (r: Question)
    requires q.body.Categorize? && k < |q.body.items|
    ensures SameHeader(q, r) && r.body.Categorize? && r.body.categories == q.body.categories
    ensures multiset(r.body.items) + multiset{q.body.items[k]} == multiset(q.body.items)
    ensures r.body.items == RemoveAt(q.body.items, k)
  {
    RemoveAtMultiset(q.body.items, k);
    q.(body := q.body.(items := RemoveAt(q.body.items, k)))
  }

  /** The category a new item starts in: the first name, unless there is none or it is the
      empty string (which JavaScript's `||` treats as missing), then `Category 1`. */
  function NewItemCategory(categories: seq<string>): (c: string)
    ensures c != ""
    ensures c in categories || c == "Category 1"
    ensures |categories| > 0 && categories[0] != "" ==> c == categories[0]
    ensures |categories| > 0 && categories[0] == "" ==> c == "Category 1"
  {
    if |categories| > 0 && categories[0] != "" then categories[0] else "Category 1"
  }

  /** Appends item `Item <n+1>` with id `freshId` in the first category. */
  function AddItem(q: Question, freshId: string): (r: Question)
    requires q.body.Categorize?
    ensures SameHeader(q, r) && r.body.Categorize? && r.body.categories == q.body.categories
    ensures |r.body.items| == |q.body.items| + 1
    ensures r.body.items[..|q.body.items|] == q.body.items
    ensures r.body.items[|q.body.items|] ==
      Item(freshId, "Item " + NatToString(|q.body.items| + 1), NewItemCategory(q.body.categories))
  {
    var item := Item(freshId, "Item " + NatToString(|q.body.items| + 1), NewItemCategory(q.body.categories));
    q.(body := q.body.(items := q.body.items + [item]))
  }

  /** A new item lands in an existing category exactly when the fallback is not needed or
      happens to name one. */
  lemma AddItemConsistency(q: Question, freshId: string)
    requires q.body.Categorize? && ItemsConsistent(q.body)
    ensures ItemsConsistent(AddItem(q, freshId).body) <==> NewItemCategory(q.body.categories) in q.body.categories
    ensures |q.body.categories| > 0 && q.body.categories[0] != "" ==> ItemsConsistent(AddItem(q, freshId).body)
  {
  }

  // ----- cloze -----

  /** Replaces the cloze text; the declared blanks stay exactly as they were. */
  function EditClozeText(q: Question, text: string): (r: Question)
    requires q.body.Cloze?
    ensures SameHeader(q, r) && r.body.Cloze?
    ensures r.body.text == text && r.body.blanks == q.body.blanks
  {
    q.(body := q.body.(text := text))
  }

  /** Changing the number of markers in the text of a matching question leaves blank count and
      marker count apart: nothing reconciles them. */
  lemma EditClozeTextDrifts(q: Question, text: string)
    requires q.body.Cloze? && BlanksMatch(q.body)
    requires ClozeSplit.CountMarkers(text) != ClozeSplit.CountMarkers(q.body.text)
    ensures !BlanksMatch(EditClozeText(q, text).body)
  {
  }

  /** Replaces the expected answer of blank `k`. */
  function EditBlankAnswer(q: Question, k: nat, answer: string): (r: Question)
    requires q.body.Cloze? && k < |q.body.blanks|
    ensures SameHeader(q, r) && r.body.Cloze? && r.body.text == q.body.text
    ensures |r.body.blanks| == |q.body.blanks|
    ensures r.body.blanks[k] == Blank(q.body.blanks[k].id, answer)
    ensures forall j :: 0 <= j < |q.body.blanks| && j != k ==> r.body.blanks[j] == q.body.blanks[j]
  {
    q.(body := q.body.(blanks := q.body.blanks[k := q.body.blanks[k].(correctAnswer := answer)]))
  }

  /** Drops blank `k`; the text keeps all its markers. */
  function RemoveBlank(q: Question, k: nat): (r: Question)
    requires q.body.Cloze? && k < |q.body.blanks|
    ensures SameHeader(q, r) && r.body.Cloze? && r.body.text == q.body.text
    ensures multiset(r.body.blanks) + multiset{q.body.blanks[k]} == multiset(q.body.blanks)
    ensures r.body.blanks == RemoveAt(q.body.blanks, k)
  {
    RemoveAtMultiset(q.body.blanks, k);
    q.(body := q.body.(blanks := RemoveAt(q.body.blanks, k)))
  }

  /** Appends a blank with id `freshId` and an empty expected answer; the text is unchanged. */
  function AddBlank(q: Question, freshId: string): (r: Question)
    requires q.body.Cloze?
    ensures SameHeader(q, r) && r.body.Cloze? && r.body.text == q.body.text
    ensures |r.body.blanks| == |q.body.blanks| + 1
    ensures r.body.blanks[..|q.body.blanks|] == q.body.blanks
    ensures r.body.blanks[|q.body.blanks|] == Blank(freshId, "")
  {
    q.(body := q.body.(blanks := q.body.blanks + [Blank(freshId, "")]))
  }

  /** Adding or removing a blank on a matching question breaks the match. */
  lemma BlankEditsBreakMatch(q: Question, k: nat, freshId: string)
    requires q.body.Cloze? && BlanksMatch(q.body) && k < |q.body.blanks|
    ensures !BlanksMatch(AddBlank(q, freshId).body)
    ensures !BlanksMatch(RemoveBlank(q, k).body)
  {
  }

  // ----- comprehension -----

  /** Replaces the reading passage. */
  function EditPassage(q: Question, passage: string): (r: Question)
    requires q.body.Comprehension?
    ensures SameHeader(q, r) && r.body.Comprehension?
    ensures r.body.passage == passage && r.body.questions == q.body.questions
  {
    q.(body := q.body.(passage := passage))
  }

  /** Replaces the prompt of sub-question `k`. */
  function EditSubQuestionText(q: Question, k: nat, text: string): (r: Question)
    requires q.body.Comprehension? && k < |q.body.questions|
    ensures SameHeader(q, r) && r.body.Comprehension? && r.body.passage == q.body.passage
    ensures |r.body.questions| == |q.body.questions|
    ensures r.body.questions[k] == q.body.questions[k].(question := text)
    ensures forall j :: 0 <= j < |q.body.questions| && j != k ==> r.body.questions[j] == q.body.questions[j]
  {
    q.(body := q.body.(questions := q.body.questions[k := q.body.questions[k].(question := text)]))
  }

  /** The options a sub-question gets when switched to `kind`: two fresh options for
      multiple choice, none for a text answer. */
  function OptionsFor(kind: AnswerKind): (o: Option<seq<string>>)
    ensures o.Some? <==> kind == MultipleChoice
    ensures o.Some? ==> o.value == ["Option 1", "Option 2"]
  {
    if kind == MultipleChoice then Some(["Option 1", "Option 2"]) else None
  }

  /** Switches sub-question `k` to `kind`, resetting its options; id, prompt and expected answer stay. */
  function SwitchSubQuestionKind(q: Question, k: nat, kind: AnswerKind): (r: Question)
    requires q.body.Comprehension? && k < |q.body.questions|
    ensures SameHeader(q, r) && r.body.Comprehension? && r.body.passage == q.body.passage
    ensures |r.body.questions| == |q.body.questions|
    ensures r.body.questions[k].kind == kind
    ensures r.body.questions[k].options.Some? <==> kind == MultipleChoice
    ensures kind == MultipleChoice ==> r.body.questions[k].options.value == ["Option 1", "Option 2"]
    ensures r.body.questions[k].id == q.body.questions[k].id
    ensures r.body.questions[k].question == q.body.questions[k].question
    ensures r.body.questions[k].correctAnswer == q.body.questions[k].correctAnswer
    ensures forall j :: 0 <= j < |q.body.questions| && j != k ==> r.body.questions[j] == q.body.questions[j]
  {
    var sq := q.body.questions[k];
    q.(body := q.body.(questions := q.body.questions[k := sq.(kind := kind, options := OptionsFor(kind))]))
  }

  /** Switching kinds keeps options present exactly for multiple-choice sub-questions. */
  lemma SwitchKeepsOptionsMatch(q: Question, k: nat, kind: AnswerKind)
    requires q.body.Comprehension? && k < |q.body.questions| && OptionsMatchKind(q.body)
    ensures OptionsMatchKind(SwitchSubQuestionKind(q, k, kind).body)
  {
  }

  /** Sub-question `k` with its option list replaced by `options`. */
  function WithOptions(q: Question, k: nat, options: seq<string>): (r: Question)
    requires q.body.Comprehension? && k < |q.body.questions|
    ensures SameHeader(q, r) && r.body.Comprehension? && r.body.passage == q.body.passage
    ensures |r.body.questions| == |q.body.questions|
    ensures r.body.questions[k] == q.body.questions[k].(options := Some(options))
    ensures forall j :: 0 <= j < |q.body.questions| && j != k ==> r.body.questions[j] == q.body.questions[j]
  {
    q.(body := q.body.(questions := q.body.questions[k := q.body.questions[k].(options := Some(options))]))
  }

  /** Replaces option `j` of sub-question `k`. */
  function EditOption(q: Question, k: nat, j: nat, option: string): (r: Question)
    requires q.body.Comprehension? && k < |q.body.questions|
    requires q.body.questions[k].options.Some? && j < |q.body.questions[k].options.value|
    ensures SameHeader(q, r) && r.body.Comprehension?
    ensures |r.body.questions| == |q.body.questions|
    ensures r.body.questions[k].options == Some(q.body.questions[k].options.value[j := option])
    ensures r.body.passage == q.body.passage
    ensures r.body.questions[k].id == q.body.questions[k].id && r.body.questions[k].kind == q.body.questions[k].kind
    ensures r.body.questions[k].question == q.body.questions[k].question
    ensures r.body.questions[k].correctAnswer == q.body.questions[k].correctAnswer
    ensures forall i :: 0 <= i < |q.body.questions| && i != k ==> r.body.questions[i] == q.body.questions[i]
  {
    WithOptions(q, k, q.body.questions[k].options.value[j := option])
  }

  /** Drops option `j` of sub-question `k`; absent options become an empty list. */
  function RemoveOption(q: Question, k: nat, j: nat): (r: Question)
    requires q.body.Comprehension? && k < |q.body.questions|
    ensures SameHeader(q, r) && r.body.Comprehension?
    ensures |r.body.questions| == |q.body.questions|
    ensures r.body.questions[k].options == Some(RemoveAt(q.body.questions[k].options.GetOr([]), j))
    ensures r.body.passage == q.body.passage
    ensures r.body.questions[k].id == q.body.questions[k].id && r.body.questions[k].kind == q.body.questions[k].kind
    ensures r.body.questions[k].question == q.body.questions[k].question
    ensures r.body.questions[k].correctAnswer == q.body.questions[k].correctAnswer
    ensures q.body.questions[k].options.Some? && j < |q.body.questions[k].options.value| ==>
      |r.body.questions[k].options.value| == |q.body.questions[k].options.value| - 1
    ensures forall i :: 0 <= i < |q.body.questions| && i != k ==> r.body.questions[i] == q.body.questions[i]
  {
    WithOptions(q, k, RemoveAt(q.body.questions[k].options.GetOr([]), j))
  }

  /** Appends option `Option <n+1>` to sub-question `k`, n counting its current options. */
  function AddOption(q: Question, k: nat): (r: Question)
    requires q.body.Comprehension? && k < |q.body.questions|
    ensures SameHeader(q, r) && r.body.Comprehension?
    ensures |r.body.questions| == |q.body.questions|
    ensures var before := q.body.questions[k].options.GetOr([]);
      r.body.questions[k].options == Some(before + ["Option " + NatToString(|before| + 1)])
    ensures r.body.passage == q.body.passage
    ensures r.body.questions[k].id == q.body.questions[k].id && r.body.questions[k].kind == q.body.questions[k].kind
    ensures r.body.questions[k].question == q.body.questions[k].question
    ensures r.body.questions[k].correctAnswer == q.body.questions[k].correctAnswer
    ensures forall i :: 0 <= i < |q.body.questions| && i != k ==> r.body.questions[i] == q.body.questions[i]
  {
    var opts := q.body.questions[k].options.GetOr([]);
    WithOptions(q, k, opts + ["Option " + NatToString(|opts| + 1)])
  }

  /** The option editors are shown only for multiple-choice sub-questions; there they keep
      options present exactly for multiple choice. */
  lemma OptionEditsKeepOptionsMatch(q: Question, k: nat, j: nat, option: string)
    requires q.body.Comprehension? && k < |q.body.questions| && OptionsMatchKind(q.body)
    requires q.body.questions[k].kind == MultipleChoice
    ensures OptionsMatchKind(AddOption(q, k).body)
    ensures OptionsMatchKind(RemoveOption(q, k, j).body)
    ensures q.body.questions[k].options.Some?
    ensures j < |q.body.questions[k].options.value| ==> OptionsMatchKind(EditOption(q, k, j, option).body)
  {
  }

  /** Drops sub-question `k`. */
  function RemoveSubQuestion(q: Question, k: nat): (r: Question)
    requires q.body.Comprehension? && k < |q.body.questions|
    ensures SameHeader(q, r) && r.body.Comprehension? && r.body.passage == q.body.passage
    ensures multiset(r.body.questions) + multiset{q.body.questions[k]} == multiset(q.body.questions)
    ensures r.body.questions == RemoveAt(q.body.questions, k)
  {
    RemoveAtMultiset(q.body.questions, k);
    q.(body := q.body.(questions := RemoveAt(q.body.questions, k)))
  }

  /** Appends an empty text sub-question with id `freshId` and no options. */
  function AddSubQuestion(q: Question, freshId: string): (r: Question)
    requires q.body.Comprehension?
    ensures SameHeader(q, r) && r.body.Comprehension? && r.body.passage == q.body.passage
    ensures |r.body.questions| == |q.body.questions| + 1
    ensures r.body.questions[..|q.body.questions|] == q.body.questions
    ensures r.body.questions[|q.body.questions|] == SubQuestion(freshId, "", TextAnswer, None, "")
    ensures OptionsMatchKind(q.body) ==> OptionsMatchKind(r.body)
  {
    var r := q.(body := q.body.(questions := q.body.questions + [SubQuestion(freshId, "", TextAnswer, None, "")]));
    assert forall j :: 0 <= j < |q.body.questions| ==> r.body.questions[j] == q.body.questions[j];
    r
  }

  // ----- move buttons -----

  /** Move Up is offered only below the first position and moves the question one place up. */
  function MoveUp(qs: seq<Question>, index: nat): (r: Option<seq<Question>>)
    requires index < |qs|
    ensures r.Some? <==> index > 0
    ensures r.Some? ==> |r.value| == |qs| && Dense(r.value)
    ensures r.Some? ==> r.value[index - 1] == qs[index].(order := index - 1)
    ensures r.Some? ==> r.value[index] == qs[index - 1].(order := index)
    ensures r.Some? ==> forall i :: 0 <= i < |qs| && i != index && i != index - 1 ==> r.value[i] == qs[i].(order := i)
  {
    if index > 0 then
      var moved := FormBuilder.ReorderQuestions(qs, index, index - 1);
      assert MovedFrom(index, index - 1, index) == index - 1;
      Some(moved)
    else None
  }

  /** Move Down is offered only above the last position and moves the question one place down. */
  function MoveDown(qs: seq<Question>, index: nat): (r: Option<seq<Question>>)
    requires index < |qs|
    ensures r.Some? <==> index < |qs| - 1
    ensures r.Some? ==> |r.value| == |qs| && Dense(r.value)
    ensures r.Some? ==> r.value[index + 1] == qs[index].(order := index + 1)
    ensures r.Some? ==> r.value[index] == qs[index + 1].(order := index)
    ensures r.Some? ==> forall i :: 0 <= i < |qs| && i != index && i != index + 1 ==> r.value[i] == qs[i].(order := i)
  {
    if index < |qs| - 1 then
      var moved := FormBuilder.ReorderQuestions(qs, index, index + 1);
      assert MovedFrom(index, index + 1, index) == index + 1;
      Some(moved)
    else None
  }

  /** Moving a question down and then up again restores the list, orders renumbered. */
  lemma MoveDownThenUp(qs: seq<Question>, index: nat)
    requires index + 1 < |qs|
    ensures MoveDown(qs, index).Some?
    ensures MoveUp(MoveDown(qs, index).value, index + 1) == Some(FormBuilder.Renumber(qs))
  {
    FormBuilder.ReorderInverse(qs, index, index + 1);
  }
}
