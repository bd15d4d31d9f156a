/**
 The builder's state operations: each takes the current list of questions of the
 form and returns the next one (the form's other fields are carried over unchanged),
 plus the title guard that decides whether a save goes ahead.
 */
module FormBuilder {
  import opened Wrappers
  import opened Types
  import opened Seqs
  import opened Strings
  import ClozeSplit

  const DefaultClozeText: string := "This is a " + ClozeSplit.Marker + " test with " + ClozeSplit.Marker + " blanks."
  const DefaultPassage: string := "Read the following passage and answer the questions below."

  /** The default cloze sentence holds exactly two markers. */
  lemma DefaultClozeMarkers()
    ensures ClozeSplit.CountMarkers(DefaultClozeText) == 2
  {
    ClozeSplit.SplitTwoMarkers("This is a ", " test with ", " blanks.");
  }

  /** The illustrative body a freshly added question of `kind` starts with: it has the
      requested kind, is non-empty, and satisfies the kind's cross-field invariant. */
  function DefaultBody(kind: Kind): (b: Body)
    ensures b.Kind() == kind
    ensures WellFormed(b)
    ensures b.Categorize? ==> |b.categories| == 2 && |b.items| == 2
    ensures b.Cloze? ==> |b.blanks| == 2
    ensures b.Comprehension? ==> |b.questions| == 1
  {
    match kind
    case CategorizeKind =>
      Categorize(
        ["Category 1", "Category 2"],
        [Item("1", "Item 1", "Category 1"), Item("2", "Item 2", "Category 2")])
    case ClozeKind =>
      DefaultClozeMarkers();
      Cloze(DefaultClozeText, [Blank("1", "sample"), Blank("2", "multiple")])
    case ComprehensionKind =>
      Comprehension(DefaultPassage, [SubQuestion("1", "What is the main topic?", TextAnswer, None, "")])
  }

  /** Appends a default question of `kind`; `freshId` stands for the clock-derived id. */
  function AddQuestion(qs: seq<Question>, kind: Kind, freshId: string): (r: seq<Question>)
    ensures |r| == |qs| + 1
    ensures r[..|qs|] == qs
    ensures r[|qs|].id == freshId && r[|qs|].order == |qs|
    ensures r[|qs|].title == "" && !r[|qs|].required && r[|qs|].image == None
    ensures r[|qs|].body.Kind() == kind && WellFormed(r[|qs|].body)
  {
    qs + [Question(freshId, "", false, |qs|, None, DefaultBody(kind))]
  }

  /** The concrete defaults a new question is created with. */
  lemma DefaultContents(qs: seq<Question>, id: string)
    ensures AddQuestion(qs, CategorizeKind, id)[|qs|].body ==
      Categorize(["Category 1", "Category 2"],
                 [Item("1", "Item 1", "Category 1"), Item("2", "Item 2", "Category 2")])
    ensures var b := AddQuestion(qs, ClozeKind, id)[|qs|].body;
      b.text == "This is a _____ test with _____ blanks." && b.blanks == [Blank("1", "sample"), Blank("2", "multiple")]
    ensures var b := AddQuestion(qs, ComprehensionKind, id)[|qs|].body;
      |b.questions| == 1 && b.questions[0].kind == TextAnswer && b.questions[0].correctAnswer == ""
      && b.questions[0].options == None
  {
  }

  /** Adding keeps a dense list dense, and keeps ids unique when the new id is fresh. */
  lemma AddQuestionKeepsInvariants(qs: seq<Question>, kind: Kind, freshId: string)
    ensures Dense(qs) ==> Dense(AddQuestion(qs, kind, freshId))
    ensures UniqueIds(qs) && freshId !in Ids(qs) ==> UniqueIds(AddQuestion(qs, kind, freshId))
  {
  }

  /** Replaces every question whose id is `id` by `updated`, in place. */
  function UpdateQuestion(qs: seq<Question>, id: string, updated: Question): (r: seq<Question>)
    ensures |r| == |qs|
    ensures forall i :: 0 <= i < |qs| && qs[i].id != id ==> r[i] == qs[i]
    ensures forall i :: 0 <= i < |qs| && qs[i].id == id ==> r[i] == updated
    ensures id !in Ids(qs) ==> r == qs
  {
    seq(|qs|, i requires 0 <= i < |qs| => if qs[i].id == id then updated else qs[i])
  }

  /** An edit that keeps the question's id and order (as every editor edit does) keeps
      ids unique and a dense list dense. */
  lemma UpdateKeepsInvariants(qs: seq<Question>, k: nat, updated: Question)
    requires k < |qs| && UniqueIds(qs)
    requires updated.id == qs[k].id && updated.order == qs[k].order
    ensures UpdateQuestion(qs, qs[k].id, updated) == qs[k := updated]
    ensures UniqueIds(UpdateQuestion(qs, qs[k].id, updated))
    ensures Dense(qs) ==> Dense(UpdateQuestion(qs, qs[k].id, updated))
  {
  }

  /** Keeps every question whose id differs from `id`, in order, with all fields as they were. */
  function DeleteQuestion(qs: seq<Question>, id: string): (r: seq<Question>)
    ensures |r| <= |qs|
    ensures forall i :: 0 <= i < |r| ==> r[i].id != id
  {
    if |qs| == 0 then []
    else (if qs[0].id == id then [] else [qs[0]]) + DeleteQuestion(qs[1..], id)
  }

  /** The survivors of a delete are exactly the questions with another id, unchanged
      (their stored `order` included). */
  lemma {:induction false} DeleteSurvivors(qs: seq<Question>, id: string)
    ensures forall q :: q in DeleteQuestion(qs, id) <==> q in qs && q.id != id
  {
    if |qs| > 0 {
      DeleteSurvivors(qs[1..], id);
      assert qs == [qs[0]] + qs[1..];
    }
  }

  /** Deleting an id no question has is a no-op. */
  lemma {:induction false} DeleteAbsent(qs: seq<Question>, id: string)
    requires id !in Ids(qs)
    ensures DeleteQuestion(qs, id) == qs
  {
    if |qs| > 0 {
      assert qs[0].id == Ids(qs)[0];
      assert id !in Ids(qs[1..]) by {
        var tail := qs[1..];
        forall i | 0 <= i < |tail|
          ensures Ids(tail)[i] != id
        {
          assert tail[i] == qs[i + 1];
          assert Ids(qs)[i + 1] == qs[i + 1].id;
        }
      }
      DeleteAbsent(qs[1..], id);
      assert qs == [qs[0]] + qs[1..];
    }
  }

  /** Deleting works piecewise, so the survivors keep their relative order. */
  lemma {:induction false} DeleteConcat(a: seq<Question>, b: seq<Question>, id: string)
    ensures DeleteQuestion(a + b, id) == DeleteQuestion(a, id) + DeleteQuestion(b, id)
  {
    if |a| > 0 {
      DeleteConcat(a[1..], b, id);
      var head := if a[0].id == id then [] else [a[0]];
      calc {
        DeleteQuestion(a + b, id);
        { assert (a + b)[0] == a[0]; }
        head + DeleteQuestion((a + b)[1..], id);
        { assert (a + b)[1..] == a[1..] + b; }
        head + (DeleteQuestion(a[1..], id) + DeleteQuestion(b, id));
        (head + DeleteQuestion(a[1..], id)) + DeleteQuestion(b, id);
      }
    } else {
      assert a + b == b;
    }
  }

  /** With unique ids, deleting an existing id removes exactly that one position. */
  lemma DeleteUnique(qs: seq<Question>, k: nat)
    requires k < |qs| && UniqueIds(qs)
    ensures DeleteQuestion(qs, qs[k].id) == RemoveAt(qs, k)
  {
    var id := qs[k].id;
    var front, back := qs[..k], qs[k + 1..];
    UniqueIdOnlyAt(qs, k);
    DeleteAbsent(front, id);
    DeleteAbsent(back, id);
    DeleteSplit(qs, k, front, back);
    DeleteAround(qs[k], front, back);
  }

  /** Deleting from a list is deleting from its three pieces around position k. */
  lemma DeleteSplit(qs: seq<Question>, k: nat, front: seq<Question>, back: seq<Question>)
    requires k < |qs| && front == qs[..k] && back == qs[k + 1..]
    ensures DeleteQuestion(qs, qs[k].id) == DeleteQuestion(front + ([qs[k]] + back), qs[k].id)
  {
    assert qs == front + ([qs[k]] + back);
  }

  /** The question at the head goes, the rest is filtered as before. */
  lemma DeleteHead(q: Question, rest: seq<Question>)
    ensures DeleteQuestion([q] + rest, q.id) == DeleteQuestion(rest, q.id)
  {
  }

  /** Between two stretches the filter keeps whole, the one question with the id goes. */
  lemma DeleteAround(q: Question, front: seq<Question>, back: seq<Question>)
    requires DeleteQuestion(front, q.id) == front && DeleteQuestion(back, q.id) == back
    ensures DeleteQuestion(front + ([q] + back), q.id) == front + back
  {
    DeleteHead(q, back);
    DeleteConcat(front, [q] + back, q.id);
  }

  /** With unique ids, the id at `k` occurs neither before nor after `k`. */
  lemma UniqueIdOnlyAt(qs: seq<Question>, k: nat)
    requires k < |qs| && UniqueIds(qs)
    ensures qs[k].id !in Ids(qs[..k]) && qs[k].id !in Ids(qs[k + 1..])
  {
  }

  /** Deleting anything but the last question of a dense list leaves a gap in `order`. */
  lemma DeleteLeavesGap(qs: seq<Question>, k: nat)
    requires k + 1 < |qs| && UniqueIds(qs) && Dense(qs)
    ensures !Dense(DeleteQuestion(qs, qs[k].id))
  {
    DeleteUnique(qs, k);
    var r := DeleteQuestion(qs, qs[k].id);
    assert r[k] == qs[k + 1];
  }

  /** Rewrites every stored order to the question's position. */
  function Renumber(qs: seq<Question>): (r: seq<Question>)
    ensures |r| == |qs| && Dense(r)
    ensures Ids(r) == Ids(qs)
  {
    seq(|qs|, i requires 0 <= i < |qs| => qs[i].(order := i))
  }

  /** Renumbering writes only `order`: every other field of every question is kept. */
  lemma RenumberKeepsFields(qs: seq<Question>)
    ensures forall i :: 0 <= i < |qs| ==> SameButOrder(Renumber(qs)[i], qs[i])
  {
  }

  /** Moves the question at `fromIndex` to `toIndex`, then renumbers: a permutation of the
      questions that lands the moved one at `toIndex` and leaves the orders dense. */
  function ReorderQuestions(qs: seq<Question>, fromIndex: nat, toIndex: nat): (r: seq<Question>)
    requires fromIndex < |qs| && toIndex < |qs|
    ensures |r| == |qs|
    ensures Dense(r)
    ensures r[toIndex] == qs[fromIndex].(order := toIndex)
    ensures forall i :: 0 <= i < |r| ==> r[i] == qs[MovedFrom(fromIndex, toIndex, i)].(order := i)
    ensures multiset(Ids(r)) == multiset(Ids(qs))
  {
    var moved := Move(qs, fromIndex, toIndex);
    MoveMultiset(Ids(qs), fromIndex, toIndex);
    assert Ids(moved) == Move(Ids(qs), fromIndex, toIndex);
    Renumber(moved)
  }

  /** Moving a question back where it came from restores the list, up to renumbering. */
  lemma ReorderInverse(qs: seq<Question>, fromIndex: nat, toIndex: nat)
    requires fromIndex < |qs| && toIndex < |qs|
    ensures ReorderQuestions(ReorderQuestions(qs, fromIndex, toIndex), toIndex, fromIndex) == Renumber(qs)
  {
    var r := ReorderQuestions(qs, fromIndex, toIndex);
    var back := ReorderQuestions(r, toIndex, fromIndex);
    forall i | 0 <= i < |qs|
      ensures back[i] == qs[i].(order := i)
    {
      assert MovedFrom(fromIndex, toIndex, MovedFrom(toIndex, fromIndex, i)) == i;
    }
  }

  /** What pressing Save does with the form: warn about the title, or hand the whole form
      to the update call (editing an existing form) or the create call (a new one). */
  datatype SaveAction = WarnMissingTitle | UpdateExisting(formId: string, form: Form) | CreateNew(form: Form)

  function HandleSave(f: Form, routeId: Option<string>): (a: SaveAction)
    ensures a.WarnMissingTitle? <==> AllWhitespace(f.title)
    ensures a.UpdateExisting? <==> !AllWhitespace(f.title) && routeId.Some?
    ensures a.UpdateExisting? ==> a.formId == routeId.value && a.form == f
    ensures a.CreateNew? ==> a.form == f
  {
    TrimEmptyIffBlank(f.title);
    if Trim(f.title) == [] then WarnMissingTitle
    else
      match routeId
      case Some(id) => UpdateExisting(id, f)
      case None => CreateNew(f)
  }
}
