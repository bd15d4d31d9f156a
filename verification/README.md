# Form builder and respondent view — a Dafny model

This project models the state logic of a form builder whose questions come in three
kinds, and of the view in which a respondent fills a published form in.

- **Categorize** questions have category labels and items that each name a label.
- **Cloze** questions have a text with `_____` blank markers and a list of declared blanks.
- **Comprehension** questions have a passage and text or multiple-choice sub-questions.

The source writes this logic inline in React components. The model restates it as pure
functions over immutable datatypes and proves properties about them.

Modules:

- `Types`: the question union. A `Question` is a common header (id, title, required,
  stored `order`, optional image) plus one kind-specific `Body`. It also holds the three
  intended cross-field invariants, which the source never enforces: items name existing
  categories, blank count equals marker count, and options are present exactly for
  multiple-choice sub-questions.
- `FormBuilder`: the per-kind defaults, add, update by id, delete by id, reorder with
  renumbering, and the title guard of Save.
- `QuestionEditor`: the header patch and every sub-list edit of the three editors, plus
  the Move Up and Move Down guards.
- `FormPreview`: the answer map and its per-question and per-key merges, the
  required-question check and payload assembly behind Submit, the cloze split into
  segments and `blank_i` slots, the categorize selectors and the comprehension widgets.
- `ClozeSplit`, `Strings`, `Seqs`, `Wrappers`: JavaScript's `split` on the marker,
  `${n}` rendering, `trim`, index removal, splice-move, and `Option`.

Three behaviours of the source worth noting:

- Deleting is a `filter` on the id, so it removes every question with that id. With unique
  ids this removes exactly one position, as `FormBuilder.DeleteUnique` shows.
- An item's selector offers an empty placeholder followed by the categories.
- A new item falls back to `Category 1` both when there are no categories and when the
  first label is the empty string, because `||` treats `""` as missing.

The builder operations take and return the form's question list. In the source each of
them writes only `questions` and copies the other form fields unchanged
(`{ ...prev, questions }`).

## Model

| member | source | states |
|---|---|---|
| FormBuilder.DefaultBody | src/components/FormBuilder.tsx:106-146 | the default body has the requested kind, is non-empty (2 categories and 2 items, 2 blanks, 1 sub-question) and satisfies its kind's cross-field invariant |
| FormBuilder.DefaultClozeMarkers | src/components/FormBuilder.tsx:122 | the default cloze sentence contains exactly two markers, matching its two blanks |
| FormBuilder.DefaultContents | src/components/FormBuilder.tsx:107-143 | the exact default categories, items, cloze text and blanks, and the single text sub-question with an empty expected answer |
| FormBuilder.AddQuestion | src/components/FormBuilder.tsx:92-151 | appends exactly one question: existing questions unchanged, new one has the given id, order = previous length, empty title, not required, the requested kind |
| FormBuilder.AddQuestionKeepsInvariants | src/components/FormBuilder.tsx:92-151 | adding keeps a dense order dense, and keeps ids unique when the new id is fresh |
| FormBuilder.UpdateQuestion | src/components/FormBuilder.tsx:154-164 | same length and positions; questions with another id untouched; those with the id replaced; no-op when the id is absent |
| FormBuilder.UpdateKeepsInvariants | src/components/FormBuilder.tsx:154-164 | an edit that keeps id and order replaces exactly one position and preserves id uniqueness and order density |
| FormBuilder.DeleteQuestion | src/components/FormBuilder.tsx:166-171 | no survivor has the deleted id, and the list never grows |
| FormBuilder.DeleteSurvivors | src/components/FormBuilder.tsx:166-171 | the survivors are exactly the questions with another id, all fields (stale order included) unchanged |
| FormBuilder.DeleteAbsent | src/components/FormBuilder.tsx:166-171 | deleting an id no question has changes nothing |
| FormBuilder.DeleteConcat | src/components/FormBuilder.tsx:169 | the filter works piecewise, so survivors keep their relative order |
| FormBuilder.DeleteUnique | src/components/FormBuilder.tsx:166-171 | with unique ids, deleting an existing id removes exactly that one position |
| FormBuilder.DeleteLeavesGap | src/components/FormBuilder.tsx:166-171 | deleting any but the last question of a dense list leaves it not dense: the order gap |
| FormBuilder.Renumber | src/components/FormBuilder.tsx:178-182 | renumbering makes the list dense and changes no id |
| FormBuilder.RenumberKeepsFields | src/components/FormBuilder.tsx:178-182 | renumbering changes no field of any question except `order`, so "up to renumbering" means only the stored order differs |
| FormBuilder.ReorderQuestions | src/components/FormBuilder.tsx:173-188 | same length; moved question lands at the target index; element i is the old element at the reference move position; ids are a permutation; orders are dense |
| FormBuilder.ReorderInverse | src/components/FormBuilder.tsx:173-188 | moving a question back where it came from restores the list up to renumbering |
| FormBuilder.HandleSave | src/components/FormBuilder.tsx:47-68 | save is refused with a warning exactly when the title is all whitespace; otherwise the whole form goes to update (route id present) or create |
| Strings.TrimStart | src/components/FormBuilder.tsx:52 | returns the suffix left after the leading whitespace run |
| Strings.TrimEnd | src/components/FormBuilder.tsx:52 | returns the prefix left before the trailing whitespace run |
| Strings.TrimEmptyIffBlank | src/components/FormBuilder.tsx:52 | `title.trim()` is empty exactly when every character is JavaScript whitespace |
| Strings.NatToString | src/components/QuestionEditor.tsx:114 | `${n}` is a non-empty digit string with no leading zero |
| Strings.ParseNatToString | src/components/QuestionEditor.tsx:114 | reading a rendered number back gives the number |
| Strings.NatToStringInjective | src/components/FormPreview.tsx:131 | distinct numbers render distinctly |
| Seqs.RemoveAt | src/components/QuestionEditor.tsx:96-98 | the index filter drops exactly position k and keeps the rest in order; an out-of-range index keeps everything |
| Seqs.RemoveAtMultiset | src/components/QuestionEditor.tsx:96-98 | removal loses exactly the one element at k |
| Seqs.Move | src/components/FormBuilder.tsx:174-176 | the two splices agree with the reference index map of a move |
| Seqs.MoveMultiset | src/components/FormBuilder.tsx:174-176 | the two splices are a permutation |
| Seqs.MoveInverse | src/components/FormBuilder.tsx:174-176 | splicing the element back from its new index to its old one restores the list |
| ClozeSplit.Split | src/components/FormPreview.tsx:120 | the marker split yields one segment more than the markers counted left to right, the first being a prefix of the text |
| ClozeSplit.SplitFirstCut | src/components/FormPreview.tsx:120 | the first cut is at the leftmost marker occurrence and the remainder after it is split again; with no occurrence the text stays whole, which fixes every segment |
| ClozeSplit.JoinSplit | src/components/FormPreview.tsx:120 | re-joining the segments with the marker restores the text |
| ClozeSplit.SegmentsMarkerFree | src/components/FormPreview.tsx:120 | no segment contains a marker |
| ClozeSplit.SplitPlainPrefix | src/components/FormPreview.tsx:120 | underscore-free text in front only lengthens the first segment |
| ClozeSplit.SplitMarkerPrefix | src/components/FormPreview.tsx:120 | a leading marker cuts off an empty segment |
| ClozeSplit.SplitOneMarker | src/components/FormPreview.tsx:120 | plain text around one marker splits into its two pieces |
| ClozeSplit.SplitTwoMarkers | src/components/FormPreview.tsx:120 | plain text around two markers splits into its three pieces |
| QuestionEditor.ApplyPatch | src/components/QuestionEditor.tsx:46-66 | a title or required patch changes only that field and keeps id, order, image and kind |
| QuestionEditor.SetImage | src/components/QuestionEditor.tsx:37 | an uploaded path becomes the image; nothing else changes |
| QuestionEditor.RenameCategory | src/components/QuestionEditor.tsx:83-89 | only categories[k] changes; items are not rewritten |
| QuestionEditor.RenameStrandsItems | src/components/QuestionEditor.tsx:83-89 | renaming a label an item uses leaves that item pointing at a missing category |
| QuestionEditor.RemoveCategory | src/components/QuestionEditor.tsx:95-102 | exactly that category is removed, the rest keep their order, items are untouched |
| QuestionEditor.AddCategory | src/components/QuestionEditor.tsx:111-119 | appends `Category n+1` and keeps the existing labels |
| QuestionEditor.AddCategoryCanDuplicate | src/components/QuestionEditor.tsx:111-119 | removing the first default category then adding one yields a duplicate label |
| QuestionEditor.EditItemText | src/components/QuestionEditor.tsx:139-145 | only item k's text changes |
| QuestionEditor.SetItemCategory | src/components/QuestionEditor.tsx:152-158 | only item k's category changes |
| QuestionEditor.SetItemCategoryKeepsConsistent | src/components/QuestionEditor.tsx:150-167 | choosing from the offered categories keeps items consistent |
| QuestionEditor.RemoveItem | src/components/QuestionEditor.tsx:169-176 | exactly item k is removed; categories unchanged |
| QuestionEditor.NewItemCategory | src/components/QuestionEditor.tsx:189 | a new item's category is never empty and is either an existing label or `Category 1`; it is the first label whenever that one is non-empty, and `Category 1` when the first label is `""` (JavaScript `||`) |
| QuestionEditor.AddItem | src/components/QuestionEditor.tsx:185-195 | appends `Item n+1` with the fresh id in the fallback category; existing items unchanged |
| QuestionEditor.AddItemConsistency | src/components/QuestionEditor.tsx:186-191 | a new item keeps items consistent iff its category exists, which holds when the first label is non-empty |
| QuestionEditor.EditClozeText | src/components/QuestionEditor.tsx:219-220 | the text changes and the blanks stay as they were |
| QuestionEditor.EditClozeTextDrifts | src/components/QuestionEditor.tsx:217-221 | a text edit that changes the marker count breaks blank/marker agreement |
| QuestionEditor.EditBlankAnswer | src/components/QuestionEditor.tsx:241-250 | only blank k's expected answer changes |
| QuestionEditor.RemoveBlank | src/components/QuestionEditor.tsx:256-263 | exactly blank k is removed; the text keeps its markers |
| QuestionEditor.AddBlank | src/components/QuestionEditor.tsx:272-278 | appends one blank with an empty answer; text unchanged |
| QuestionEditor.BlankEditsBreakMatch | src/components/QuestionEditor.tsx:255-278 | adding or removing a blank on a matching question breaks the match |
| QuestionEditor.EditPassage | src/components/QuestionEditor.tsx:302-306 | the passage changes, sub-questions stay |
| QuestionEditor.EditSubQuestionText | src/components/QuestionEditor.tsx:345-351 | only sub-question k's prompt changes |
| QuestionEditor.SwitchSubQuestionKind | src/components/QuestionEditor.tsx:359-372 | sub-question k gets the new kind with options present iff multiple choice (then `Option 1`, `Option 2`); id, prompt and expected answer stay |
| QuestionEditor.SwitchKeepsOptionsMatch | src/components/QuestionEditor.tsx:359-372 | switching kinds preserves the options-match-kind invariant |
| QuestionEditor.EditOption | src/components/QuestionEditor.tsx:393-403 | only option j of sub-question k changes: the passage, the other sub-questions and every other field of sub-question k are unchanged |
| QuestionEditor.RemoveOption | src/components/QuestionEditor.tsx:409-419 | option j is removed and absent options become an empty list; the passage, the other sub-questions and every other field of sub-question k are unchanged |
| QuestionEditor.AddOption | src/components/QuestionEditor.tsx:428-440 | appends `Option n+1` to the (possibly absent) options; the passage, the other sub-questions and every other field of sub-question k are unchanged |
| QuestionEditor.OptionEditsKeepOptionsMatch | src/components/QuestionEditor.tsx:380-446 | editing, removing or adding an option on a multiple-choice sub-question preserves the options-match-kind invariant |
| QuestionEditor.RemoveSubQuestion | src/components/QuestionEditor.tsx:326-334 | exactly sub-question k is removed |
| QuestionEditor.AddSubQuestion | src/components/QuestionEditor.tsx:452-466 | appends an empty text sub-question without options, preserving options-match-kind |
| QuestionEditor.MoveUp | src/components/QuestionEditor.tsx:505-513 | offered iff index > 0; swaps the question with its predecessor and renumbers |
| QuestionEditor.MoveDown | src/components/QuestionEditor.tsx:515-523 | offered iff index < total-1; swaps the question with its successor and renumbers |
| QuestionEditor.MoveDownThenUp | src/components/QuestionEditor.tsx:505-523 | Move Down then Move Up restores the list up to renumbering |
| FormPreview.HandleResponseChange | src/components/FormPreview.tsx:33-38 | sets only that question's entry; every other entry unchanged |
| FormPreview.StoredAfterChange | src/components/FormPreview.tsx:33-38 | after an answer change, the changed question's inputs read the new mapping and every other question's inputs read what they read before |
| FormPreview.MergeAnswer | src/components/FormPreview.tsx:96-98 | sets one key in the question's mapping, keeps its other keys and every other question |
| FormPreview.MergeThenShown | src/components/FormPreview.tsx:95-98 | an input shows what was last entered in it, and no other input changes |
| FormPreview.MissingRequired | src/components/FormPreview.tsx:44-45 | lists only required questions that have no entry |
| FormPreview.MissingRequiredExact | src/components/FormPreview.tsx:44-45 | the list holds exactly the required questions without an entry (an empty mapping counts as present) |
| FormPreview.BuildPayload | src/components/FormPreview.tsx:54-59 | exactly one entry per answered question id, each carrying the stored mapping |
| FormPreview.HandleSubmit | src/components/FormPreview.tsx:40-59 | no form is a no-op; blocked (no payload) iff a required question lacks an entry; otherwise the full payload |
| FormPreview.BlankKeysDistinct | src/components/FormPreview.tsx:131-133 | different slots have different `blank_i` keys |
| FormPreview.RenderCloze | src/components/FormPreview.tsx:120-139 | the segments are exactly the leftmost, non-overlapping `split` of the text (see `ClozeSplit.SplitFirstCut`): marker count + 1 of them, re-joining to the text, with marker count slots keyed `blank_0..`; independent of the declared blanks |
| FormPreview.ClozeScenario | src/components/FormPreview.tsx:120-139 | `A _____ B _____ C` gives segments `A `, ` B `, ` C` and slots `blank_0`, `blank_1`, even with three declared blanks |
| FormPreview.ClozeUnderscoreRuns | src/components/FormPreview.tsx:120 | ten underscores give three empty segments; six give one marker and a trailing `_` |
| FormPreview.RenderCategorize | src/components/FormPreview.tsx:91-106 | one row per item whose selector offers the placeholder then the categories and shows the stored choice or `''` |
| FormPreview.ChooseCategory | src/components/FormPreview.tsx:94-99 | choosing a category shows on that item's row only; unanswered items show the placeholder |
| FormPreview.RenderSubQuestion | src/components/FormPreview.tsx:164-193 | a text box iff the type is text, else one radio per option, checked iff the stored answer equals it |
| FormPreview.SelectOption | src/components/FormPreview.tsx:176-193 | with distinct options, selecting option j checks exactly that radio |
| FormPreview.RenderComprehension | src/components/FormPreview.tsx:145-196 | one widget per sub-question, a text box exactly for text sub-questions, each rendered from the question's own stored mapping |
| FormPreview.TypeIntoSubQuestion | src/components/FormPreview.tsx:164-172 | typing into a text sub-question shows the text in that box and leaves the other sub-questions' widgets as they were |

## Left out

- Network I/O is not modelled: fetching, creating, updating, uploading and submitting. Save
  and Submit are modelled only as their decision (`SaveAction`, `SubmitOutcome`).
- Loading, saving and submitting flags, toast events, console logging and navigation
  after create are UI side effects and are not modelled.
- Ids from `Date.now().toString()` come from the clock. The model takes them as
  `freshId` parameters.
- Image uploads are I/O. Only the question-image merge is modelled (`SetImage`). The
  header-image write and all image URL building are not.
- Direct edits of the form's title and description are single-field writes with no logic,
  so they are not modelled.
- The form list, navbar, theme, toast bus, routes and the REST client are outside the
  builder/response logic.
- FormBuilder.ReorderQuestions: requires both indices to lie inside the list. The source
  does not check them. A `fromIndex` past the end removes nothing, so `undefined` is
  inserted and renumbered into a bare `{ order: i }` entry. A `toIndex` past the end is
  clamped by `splice`, which appends the moved question. Negative indices count from the
  end. None of these cases is modelled. The only caller is the Move Up/Down buttons, which
  pass adjacent in-range indices (`MoveUp`, `MoveDown`).
- The stale-closure read of `form.questions` in `reorderQuestions` is not modelled.
  Reorder is a pure function of the current list.
- FormPreview.BuildPayload: the order of payload entries is left open. JavaScript
  enumerates keys in insertion order, but the receiver gives that order no meaning.
- Stored answers are always mappings in the model. The source types them `any`, but every
  handler stores an object, so the truthiness test `!responses[id]` is a presence test.
- QuestionEditor.EditOption: requires the sub-question's options to be present. Its input
  is rendered only for multiple-choice sub-questions that have options.
- The categorize, cloze and comprehension edits require a question of the matching kind.
  Each editor is rendered only for its own kind.
