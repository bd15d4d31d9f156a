/**
 The form document and its polymorphic question. Every question carries the common
 header (id, title, required flag, stored order, optional image) and exactly one
 kind-specific body; the kind is fixed when the question is created.
 */
module Types {
  import opened Wrappers
  import ClozeSplit

  /** A categorize item; `category` names the label it belongs under. */
  datatype Item = Item(id: string, text: string, category: string)

  /** One declared blank of a cloze question with its expected answer. */
  datatype Blank = Blank(id: string, correctAnswer: string)

  datatype AnswerKind = TextAnswer | MultipleChoice

  /** A sub-question of a comprehension question; `options` is absent (`undefined`) for text answers. */
  datatype SubQuestion = SubQuestion(
    id: string,
    question: string,
    kind: AnswerKind,
    options: Option<seq<string>>,
    correctAnswer: string)

  datatype Kind = CategorizeKind | ClozeKind | ComprehensionKind

  datatype Body =
    | Categorize(categories: seq<string>, items: seq<Item>)
    | Cloze(text: string, blanks: seq<Blank>)
    | Comprehension(passage: string, questions: seq<SubQuestion>)
  {
    function Kind(): Kind {
      match this
      case Categorize(_, _) => CategorizeKind
      case Cloze(_, _) => ClozeKind
      case Comprehension(_, _) => ComprehensionKind
    }
  }

  datatype Question = Question(
    id: string,
    title: string,
    required: bool,
    order: int,
    image: Option<string>,
    body: Body)

  /** The part of the form document the builder and the respondent view work on;
      persistence fields (server id, timestamps, publication, share link) belong to storage. */
  datatype Form = Form(title: string, description: string, headerImage: string, questions: seq<Question>)

  function Ids(qs: seq<Question>): (ids: seq<string>)
    ensures |ids| == |qs|
    ensures forall i :: 0 <= i < |qs| ==> ids[i] == qs[i].id
  {
    seq(|qs|, i requires 0 <= i < |qs| => qs[i].id)
  }

  predicate UniqueIds(qs: seq<Question>) {
    forall i, j :: 0 <= i < j < |qs| ==> qs[i].id != qs[j].id
  }

  /** Order density: the stored `order` of the i-th question is i. */
  predicate Dense(qs: seq<Question>) {
    forall i :: 0 <= i < |qs| ==> qs[i].order == i
  }

  /** `p` is `q` with at most its stored `order` changed. */
  predicate SameButOrder(p: Question, q: Question) {
    p.(order := q.order) == q
  }

  /** Intended categorize invariant: every item points at an existing category label. */
  predicate ItemsConsistent(b: Body)
    requires b.Categorize?
  {
    forall k :: 0 <= k < |b.items| ==> b.items[k].category in b.categories
  }

  /** Intended cloze invariant: one declared blank per marker in the text. */
  predicate BlanksMatch(b: Body)
    requires b.Cloze?
  {
    |b.blanks| == ClozeSplit.CountMarkers(b.text)
  }

  /** Intended comprehension invariant: options are present exactly for multiple-choice sub-questions. */
  predicate OptionsMatchKind(b: Body)
    requires b.Comprehension?
  {
    forall k :: 0 <= k < |b.questions| ==>
      (b.questions[k].options.Some? <==> b.questions[k].kind == MultipleChoice)
  }

  /** All three intended cross-field invariants, whichever the kind. */
  predicate WellFormed(b: Body) {
    match b
    case Categorize(_, _) => ItemsConsistent(b)
    case Cloze(_, _) => BlanksMatch(b)
    case Comprehension(_, _) => OptionsMatchKind(b)
  }
}
