# Trivia API: a Dafny model of its handler logic

The trivia service is a small Flask application. It serves trivia questions and their
categories over HTTP, lets clients add, delete and search questions, and runs a quiz that
returns one random question the player has not seen yet. All the logic sits in
`backend/flaskr/__init__.py`. This project models that logic without Flask and SQLAlchemy:

- **Tables.** The question table is a `Store` object. It holds the rows in id order, a serial
  counter for new ids, and a map view `id → Question`. No handler writes the category table, so
  it is a sequence of `(id, type)` rows that the handlers take as a value.
- **Request bodies.** Bodies are decoded JSON values (`Json.Json`). This makes Python's
  truthiness (`not item`, `if search_term`) and `body.get` explicit.
- **Pagination.** `paginate_questions` formats a selection and takes the Python slice
  `[(page-1)*10 : (page-1)*10+10]`. Python's slice rules are modelled exactly.
- **Quiz picker.** The picker builds the candidates (all questions for category `0`, otherwise
  that category's questions). It compares `len(previous)` with the number of candidates, then
  lets `random.choice` pick among the unseen candidates. The random draw is a parameter `pick`.
- **Handlers.** Each handler maps its inputs and the table contents to a success shape or to a
  400 / 404 / 422 / 500 error, whose body is one of four fixed error bodies.

Modules, one per file: `Wrappers` (Option), `Seqs` (min/max and `filter`), `Json`, `Trivia`
(records, responses, error bodies), `Pagination`, `Categories`, `Quiz`, `QuestionStore` (the
store class) and `Handlers`.

Four behaviours of the code are easy to misread, and the model follows the code in each:

- Deleting an id that no question has answers **422**, not 404. The comment at line 110 states
  the 404 intent, but the `abort(404)` at line 112 is raised inside the `try`, and the bare
  `except` at line 123 turns it into `abort(422)`.
- Quiz exhaustion compares **counts** (line 252), not sets. A stale id can end the quiz early
  (`Quiz.StaleIdEndsQuizEarly`). A repeated id can make `random.choice([])` raise, which answers
  500 (`Quiz.RepeatedIdFailsChoice`). Counts and sets agree when the ids sent are distinct ids
  of candidates (`Quiz.ExhaustionMatchesSetEquality`).
- `total_questions` in search mode (line 155) and in the per-category listing (line 216) counts
  the **whole table**, not the selection.
- A per-category listing whose page is empty is still a success (no 404 there). A search with
  matches but a page past the end is also a success with an empty list.

## Model

| member | source | states |
|---|---|---|
| `Seqs.Filter` | backend/flaskr/__init__.py:258 | the result has only elements of the input that the predicate accepts, all of them, and is no longer than the input |
| `Seqs.FilterAppend` | backend/flaskr/__init__.py:258 | filtering a concatenation is the concatenation of the filtered parts, so kept elements stay in their input order |
| `Seqs.FilterCounts` | backend/flaskr/__init__.py:258 | each accepted element is kept as often as it occurs, a rejected one not at all |
| `Json.ParseInt` | backend/flaskr/__init__.py:245 | a string becomes an integer exactly when it is optional sign plus decimal digits; an unsigned one gives a non-negative value |
| `Json.ParseShowInt` | backend/flaskr/__init__.py:245 | reading back the decimal rendering of any integer gives that integer |
| `Json.LeadingZeroValue` | backend/flaskr/__init__.py:245 | a leading zero does not change the value of a digit string |
| `Json.ParseIgnoresPadding` | backend/flaskr/__init__.py:245 | for a digit string, a leading `0` or `+` reads the same value and a leading `-` reads its negation, so non-canonical literals such as `"07"` or `"+5"` have their value pinned |
| `Json.Truthy` | backend/flaskr/__init__.py:138 | a value is falsy exactly when it is null, false, 0, the empty string, the empty list or the empty object |
| `Json.Get` | backend/flaskr/__init__.py:231-237 | `body.get(key)` is `None` exactly when the key is missing or holds null; otherwise it is the stored value |
| `Json.IntEquals` | backend/flaskr/__init__.py:241 | Python `n == v` holds exactly for the number `n`, and for `true` when `n` is 1 and `false` when `n` is 0 |
| `Json.ToInt` | backend/flaskr/__init__.py:171-173 | an integer column takes a JSON number as it is and reads a string as a signed decimal literal (`ParseInt`); nothing else is accepted |
| `Json.ToText` | backend/flaskr/__init__.py:171-172 | a text column accepts exactly the JSON strings, and takes the string as it is |
| `Trivia.Format` | backend/flaskr/__init__.py:19 | a view carries each of the question's five columns unchanged |
| `Trivia.ErrorBodyOf` | backend/flaskr/__init__.py:270-300 | every error body has `success` false, a code whose registered handler is the same error, and that error's fixed message |
| `Pagination.PageOf` | backend/flaskr/__init__.py:14 | the page is 1 when the argument is absent or not an integer, and the given integer otherwise |
| `Pagination.PySlice` | backend/flaskr/__init__.py:20 | Python `s[start:end]`: the run of `s` starting at the normalised start bound; for `0 <= start <= end` it is `s[start..min(end, len)]` |
| `Pagination.FormatAll` | backend/flaskr/__init__.py:19 | one formatted record per record of the selection, in order |
| `Pagination.Paginate` | backend/flaskr/__init__.py:13-22 | at most 10 items, each a formatted question of the selection; for page p >= 1, length `min(10, max(0, L-(p-1)*10))`, item i is the formatted question at index `(p-1)*10+i`, and the page is empty exactly when `L <= (p-1)*10`; page 0 is empty |
| `Pagination.PagesArePrefix` | backend/flaskr/__init__.py:13-22 | pages 1..n together are the first `10n` formatted questions in order: none skipped, none repeated |
| `Pagination.EveryQuestionOnSomePage` | backend/flaskr/__init__.py:13-22 | the pages up to `ceil(L/10)` hold the whole formatted selection, and the next page is empty |
| `Categories.CategoryMapOf` | backend/flaskr/__init__.py:54-56 | the dictionary's keys are exactly the category ids |
| `Categories.BuildCategoryMap` | backend/flaskr/__init__.py:54-56 | the loop builds exactly the dictionary of all categories, later rows overwriting earlier ones |
| `Categories.EmptyMapIffNoCategories` | backend/flaskr/__init__.py:53-60 | the dictionary is empty exactly when there are no categories |
| `Categories.CategoryMapEntries` | backend/flaskr/__init__.py:53-56 | with distinct ids there is one entry per category, mapping its id to its type |
| `Categories.FindCategory` | backend/flaskr/__init__.py:200 | no category is found exactly when none has the id; a found one is a category with that id |
| `Categories.FoundCategoryIsListed` | backend/flaskr/__init__.py:199-204 | an id has a category exactly when the dictionary lists it, under that category's type |
| `Quiz.QuizSelector` | backend/flaskr/__init__.py:234-245 | the selector is "all" exactly when `quiz_category` is an object whose `id` equals 0 under Python `==`; otherwise a null id selects no category, an id the integer column reads selects exactly that category, and reading fails exactly for the other ids, for a missing `id` key and for a non-object |
| `Quiz.Candidates` | backend/flaskr/__init__.py:240-245 | the candidates are the questions of the selected category, or every question for the "all" selector |
| `Quiz.Seen` | backend/flaskr/__init__.py:258 | `id in previous` holds exactly when the list holds the number `id`, or `true` for id 1, or `false` for id 0 |
| `Quiz.SeenIds` | backend/flaskr/__init__.py:258 | the integers the sent values stand for under Python `==`, at most one per value sent |
| `Quiz.Remaining` | backend/flaskr/__init__.py:258 | the remaining questions are exactly the candidates whose id was not sent |
| `Quiz.ChoiceIndex` | backend/flaskr/__init__.py:260 | the index `random.choice` reads is inside the list, and is the draw itself when the draw is in range |
| `Quiz.PickQuestion` | backend/flaskr/__init__.py:248-260 | exhausted exactly when the counts are equal; a chosen question is an unseen candidate; `choice` of an empty list exactly when the counts differ and every candidate was seen |
| `Quiz.EveryUnseenCandidateCanBeChosen` | backend/flaskr/__init__.py:257-260 | when the counts differ, every unseen candidate is the answer for some random draw |
| `Quiz.MoreCandidatesThanSentGivesQuestion` | backend/flaskr/__init__.py:248-260 | with more distinct candidates than values sent, a question is always chosen |
| `Quiz.ExhaustionMatchesSetEquality` | backend/flaskr/__init__.py:250-255 | if the values sent are distinct candidate ids, the count test holds exactly when no unseen candidate is left |
| `Quiz.StaleIdEndsQuizEarly` | backend/flaskr/__init__.py:252-255 | a stale id makes the count test end the quiz while an unseen candidate is left |
| `Quiz.RepeatedIdFailsChoice` | backend/flaskr/__init__.py:252-260 | an id sent twice makes the counts differ with nothing left, so `random.choice` gets an empty list |
| `QuestionStore.FindQuestion` | backend/flaskr/__init__.py:108 | no row is found exactly when no row has the id; a found index is a row with that id |
| `QuestionStore.TableAfterCut` | backend/flaskr/__init__.py:115 | removing one row keeps the ids distinct and removes exactly that row's id from the map view |
| `QuestionStore.Store.Insert` | backend/flaskr/__init__.py:171-173 | the new row takes the next serial id, which is positive and not in the table; the map view gains exactly that entry; the ids stay increasing; the serial counter moves on by one |
| `QuestionStore.Store.Delete` | backend/flaskr/__init__.py:115 | exactly the row at the index goes, the others keep their order; the map view loses exactly that id; the serial counter is unchanged, so a deleted id is never reused |
| `Handlers.GetCategories` | backend/flaskr/__init__.py:47-66 | 404 exactly when there are no categories; otherwise exactly the success carrying the dictionary of all categories |
| `Handlers.GetQuestions` | backend/flaskr/__init__.py:70-96 | 404 exactly when the page is empty (for p >= 1: when `L <= (p-1)*10`); otherwise the page, the size of the whole table and the category dictionary |
| `Handlers.SearchMode` | backend/flaskr/__init__.py:137-138 | search mode holds exactly when `body.get('searchTerm')` is present and truthy |
| `Handlers.Matching` | backend/flaskr/__init__.py:141-142 | the matches are exactly the questions whose text the search accepts, no more of them than the table has |
| `Handlers.Search` | backend/flaskr/__init__.py:137-156 | the only failure is 404, exactly when no question matches; otherwise exactly the requested page of the matches and the size of the whole table, so only matching questions, at most 10 (on page 1, `min(10, matches)`) |
| `Handlers.AllFieldsGiven` | backend/flaskr/__init__.py:160-166 | `any(not item ...)` is false exactly when each of the four fields read with `body.get` is present and truthy |
| `Handlers.ColumnValues` | backend/flaskr/__init__.py:159-173 | the insert succeeds exactly when question and answer are strings and difficulty and category are values the integer columns read; it then gets the strings as sent and the integers as read |
| `Handlers.PostQuestion` | backend/flaskr/__init__.py:129-190 | search mode exactly when `searchTerm` is truthy, with the table unchanged; a falsy or rejected field gives 422 with the table unchanged; otherwise exactly one row with a fresh id is added, reported as `created`, with the page of the new table |
| `Handlers.DeleteQuestion` | backend/flaskr/__init__.py:101-125 | an existing id is removed and nothing else changes, answering `deleted == id`; a missing id answers 422 with nothing changed |
| `Handlers.GetQuestionsByCategory` | backend/flaskr/__init__.py:194-218 | 400 exactly when no category has the id; otherwise exactly the success with the requested page of that category's questions (possibly empty), the size of the whole table and the category's type |
| `Handlers.QuizInputs` | backend/flaskr/__init__.py:231-245 | readable quiz inputs are a `previous_questions` list and the selector its `quiz_category` gives; with both fields present, reading fails exactly when the list is not a list or the selector cannot be read |
| `Handlers.PlayQuiz` | backend/flaskr/__init__.py:222-266 | 400 exactly when a field is missing; no question exactly when the counts are equal; 500 exactly when the counts differ and every candidate was seen, or the input cannot be read; a returned question is an unseen question of the selected category |
| `Handlers.QuizInCategoryOne` | backend/test_flaskr.py:178-201 | with ids 1 and 2 seen, category id `"1"` and at least three questions in category 1, the answer is a category-1 question other than 1 and 2 |
| `Handlers.QuizWithoutFieldsIsBadRequest` | backend/test_flaskr.py:203-212 | a quiz body without either field answers 400 |

## Left out

- Flask routing, `request` and `jsonify`, `create_app`, and the CORS setup with its `after_request` header injection (lines 25-43). These are framework glue. Route parameters arrive already converted: `<int:id>` is a `nat`, and the page is `Option<int>`, which is `None` when the argument is absent or not an integer.
- SQLAlchemy, sessions and `setup_db`. The tables are in-memory values. `models.py` is not part of this model, so `Question.format()` is taken to copy the five columns.
- The `ilike '%term%'` search (line 142). It is the parameter `matches`, because its case folding and collation belong to the database.
- `random.choice`. The draw is the parameter `pick`, reduced modulo the list length. The model makes no claim about uniformity.
- Row order. `Question.query.all()` without `order_by` returns rows in an order the database chooses. The model lists rows in id order, the order `order_by(Question.id)` gives at line 176.
- Database type coercion. A text column accepts only JSON strings. An integer column accepts JSON numbers and decimal strings with an optional sign. Everything else counts as rejected. The model does not cover the database's other implicit casts, surrounding whitespace, 32-bit column overflow, or comparison with out-of-range literals.
- JSON numbers are integers only. Floats (and Python's `1.0 == 1`) are not modelled.
- A request body that is not a JSON object (`get_json()` returning `None` or failing) is not modelled. Bodies are `map<string, Json>`.
- Handlers.QuizInputs: a `previous_questions` value that is not a JSON array is modelled as 500. Python takes `len()` of a string or an object, so a string or object whose length equals the number of candidates ends the quiz successfully at line 252 where the model answers 500. Past that line the `in` test at line 258 works on an object (it tests its keys) but raises on a string, which answers 500 as the model does; the object case past line 252 is not modelled.
- Quiz.QuizSelector: a null `quiz_category.id` selects no question, assuming the category column is never null.
- The session left un-rolled-back after a failed insert. The model returns 422 and leaves the table unchanged, as a committed failure would.
- `one_or_none` raising `MultipleResultsFound`. It cannot happen, because ids are unique primary keys (the store invariant).
- Pagination.Paginate: for negative page numbers (Python slices counted from the end) the contract states only the 10-item bound and that every item is a formatted question of the selection.
- Idempotence of `GET /categories` has no lemma of its own. `Handlers.GetCategories` determines its answer from the category rows alone, so two calls with no mutation between them give the same map.
