/**
 * The quiz picker of `get_random_quiz_question`: resolve the candidate questions from the
 * category selector, stop when as many ids were sent as there are candidates, otherwise
 * let `random.choice` pick one candidate whose id was not sent.
 */
module Quiz {
  import opened Wrappers
  import opened Seqs
  import opened Json
  import opened Trivia

  /** Which questions a quiz draws from. */
  datatype Selector =
    | AllCategories        // `category['id'] == 0`
    | InCategory(id: int)  // `filter_by(category=id)`
    | NoCategory           // `filter_by(category=None)`, which no question matches

  predicate InSelection(q: Question, sel: Selector) {
    match sel
    case AllCategories => true
    case InCategory(c) => q.category == c
    case NoCategory => false
  }

  /**
   * The selector for a `quiz_category` value; `None` when reading `category['id']` or binding it
   * in the query raises (not an object, no "id" key, a value the integer column rejects).
   */
  function QuizSelector(category: Json): (r: Option<Selector>)
    ensures r.Some? ==> category.JObject? && "id" in category.fields
    ensures r == Some(AllCategories) <==> category.JObject? && "id" in category.fields && IntEquals(0, category.fields["id"])
    ensures category.JObject? && "id" in category.fields && !IntEquals(0, category.fields["id"]) ==>
      var id := category.fields["id"];
      && (id == JNull ==> r == Some(NoCategory))
      && (ToInt(id).Some? ==> r == Some(InCategory(ToInt(id).value)))
      && (r.None? <==> id != JNull && ToInt(id).None?)
  {
    match category
    case JObject(fields) =>
      if "id" !in fields then None
      else
        var id := fields["id"];
        if IntEquals(0, id) then Some(AllCategories)
        else if id == JNull then Some(NoCategory)
        else if ToInt(id).Some? then Some(InCategory(ToInt(id).value))
        else None
    case _ => None
  }

  /** The questions the quiz may draw from, in table order. */
  function Candidates(rows: seq<Question>, sel: Selector): (r: seq<Question>)
    ensures forall q :: q in r <==> q in rows && InSelection(q, sel)
    ensures sel == AllCategories ==> r == rows
  {
    var keep := (q: Question) => InSelection(q, sel);
    var r := Filter(rows, keep);
    assert sel == AllCategories ==> r == rows by {
      if sel == AllCategories {
        FilterKeepingAll(rows, keep);
      }
    }
    r
  }

  /** Keeping some of a table's rows keeps their ids distinct. */
  lemma {:induction false} FilterKeepsUniqueIds(rows: seq<Question>, keep: Question -> bool)
    requires UniqueQuestionIds(rows)
    ensures UniqueQuestionIds(Filter(rows, keep))
  {
    if rows != [] {
      var tail := rows[1..];
      assert UniqueQuestionIds(tail) by {
        forall i, j | 0 <= i < j < |tail| ensures tail[i].id != tail[j].id {
          assert tail[i] == rows[i + 1] && tail[j] == rows[j + 1];
        }
      }
      FilterKeepsUniqueIds(tail, keep);
      var rest := Filter(tail, keep);
      if keep(rows[0]) {
        var r := [rows[0]] + rest;
        assert Filter(rows, keep) == r;
        forall i, j | 0 <= i < j < |r| ensures r[i].id != r[j].id {
          if i == 0 {
            assert r[j] in rest;
            var m :| 0 <= m < |tail| && tail[m] == r[j];
            assert rows[m + 1] == r[j];
          } else {
            assert r[i] == rest[i - 1] && r[j] == rest[j - 1];
          }
        }
      }
    }
  }

  /** `id in previous`: some sent value equals the id under Python's `==`. */
  predicate Seen(id: int, previous: seq<Json>)
    ensures Seen(id, previous) <==>
      JNum(id) in previous || (id == 1 && JBool(true) in previous) || (id == 0 && JBool(false) in previous)
  {
    exists i :: 0 <= i < |previous| && IntEquals(id, previous[i])
  }

  /** The integers the sent values stand for. */
  function SeenIds(previous: seq<Json>): (s: set<int>)
    ensures forall id :: id in s <==> Seen(id, previous)
    ensures |s| <= |previous|
  {
    if previous == [] then {}
    else
      var rest := SeenIds(previous[1..]);
      assert forall id :: Seen(id, previous) <==> IntEquals(id, previous[0]) || Seen(id, previous[1..]) by {
        forall id ensures Seen(id, previous) <==> IntEquals(id, previous[0]) || Seen(id, previous[1..]) {
          if Seen(id, previous[1..]) {
            var i :| 0 <= i < |previous[1..]| && IntEquals(id, previous[1..][i]);
            assert previous[i + 1] == previous[1..][i];
          }
          if Seen(id, previous) && !IntEquals(id, previous[0]) {
            var i :| 0 <= i < |previous| && IntEquals(id, previous[i]);
            assert previous[1..][i - 1] == previous[i];
          }
        }
      }
      match previous[0]
      case JNum(m) => {m} + rest
      case JBool(b) => {if b then 1 else 0} + rest
      case _ => rest
  }

  /** The candidates whose id none of the sent values equals, in candidate order. */
  function Remaining(candidates: seq<Question>, previous: seq<Json>): (r: seq<Question>)
    ensures forall q :: q in r <==> q in candidates && !Seen(q.id, previous)
  {
    Filter(candidates, (q: Question) => !Seen(q.id, previous))
  }

  /** The three ways the picker ends. */
  datatype Pick =
    | Exhausted           // success without a question
    | Chosen(q: Question) // success with this question
    | EmptyChoice         // `random.choice([])` raises

  /** The index `random.choice` reads from an `n`-element list: the supplied `pick`, taken modulo `n`. */
  function ChoiceIndex(pick: nat, n: nat): (i: nat)
    requires n > 0
    ensures i < n
    ensures pick < n ==> i == pick
  {
    pick % n
  }

  /** The picker; `pick` stands for the random source's draw. */
  function PickQuestion(candidates: seq<Question>, previous: seq<Json>, pick: nat): (r: Pick)
    ensures r.Exhausted? <==> |previous| == |candidates|
    ensures r.Chosen? ==> r.q in candidates && !Seen(r.q.id, previous)
    ensures r.EmptyChoice? <==> |previous| != |candidates| && forall q :: q in candidates ==> Seen(q.id, previous)
  {
    if |previous| == |candidates| then Exhausted
    else
      var left := Remaining(candidates, previous);
      if left == [] then EmptyChoice else Chosen(left[ChoiceIndex(pick, |left|)])
  }

  /** Every unseen candidate is a possible answer when the counts differ: the choice is not biased away from any. */
  lemma EveryUnseenCandidateCanBeChosen(candidates: seq<Question>, previous: seq<Json>, q: Question)
    requires |previous| != |candidates|
    requires q in candidates && !Seen(q.id, previous)
    ensures exists pick: nat :: PickQuestion(candidates, previous, pick) == Chosen(q)
  {
    var left := Remaining(candidates, previous);
    assert q in left;
    var k :| 0 <= k < |left| && left[k] == q;
    assert PickQuestion(candidates, previous, k) == Chosen(q);
  }

  function IdsOf(qs: seq<Question>): set<int> {
    set q | q in qs :: q.id
  }

  /** A table with distinct ids has as many ids as rows. */
  lemma {:induction false} IdsOfDistinct(qs: seq<Question>)
    requires UniqueQuestionIds(qs)
    ensures |IdsOf(qs)| == |qs|
  {
    if qs != [] {
      var init := qs[..|qs| - 1];
      var last := qs[|qs| - 1];
      assert qs == init + [last];
      IdsOfDistinct(init);
      assert IdsOf(qs) == IdsOf(init) + {last.id};
      assert last.id !in IdsOf(init) by {
        forall q | q in init ensures q.id != last.id {
          var j :| 0 <= j < |init| && init[j] == q;
          assert qs[j] == q;
        }
      }
    }
  }

  /** Distinct numbers sent stand for as many ids. */
  lemma {:induction false} SeenIdsOfDistinctNumbers(previous: seq<Json>)
    requires forall i :: 0 <= i < |previous| ==> previous[i].JNum?
    requires forall i, j :: 0 <= i < j < |previous| ==> previous[i] != previous[j]
    ensures |SeenIds(previous)| == |previous|
  {
    if previous != [] {
      SeenIdsOfDistinctNumbers(previous[1..]);
      var m := previous[0].n;
      assert SeenIds(previous) == {m} + SeenIds(previous[1..]);
      assert m !in SeenIds(previous[1..]);
    }
  }

  /**
   * With more distinct candidates than values sent, the picker always returns a question:
   * the case of the two-id quiz in a category holding at least three questions.
   */
  lemma MoreCandidatesThanSentGivesQuestion(candidates: seq<Question>, previous: seq<Json>, pick: nat)
    requires UniqueQuestionIds(candidates)
    requires |candidates| > |previous|
    ensures PickQuestion(candidates, previous, pick).Chosen?
  {
    IdsOfDistinct(candidates);
    var ids := IdsOf(candidates);
    var seen := SeenIds(previous);
    assert |ids - seen| > 0 by {
      assert |ids - seen| >= |ids| - |seen|;
    }
    var id :| id in ids - seen;
    var q :| q in candidates && q.id == id;
    assert q in Remaining(candidates, previous);
  }

  lemma SubsetOfSameSize(small: set<int>, big: set<int>)
    requires small <= big && |small| == |big|
    ensures small == big
  {
    assert big == (big - small) + small;
    assert |big - small| == 0;
  }

  /** For `seen` inside `ids`, equal sizes and `ids <= seen` say the same thing. */
  lemma SizesAgreeWithCover(ids: set<int>, seen: set<int>, none: bool)
    requires seen <= ids
    requires none <==> ids <= seen
    ensures |seen| == |ids| <==> none
  {
    if |seen| == |ids| {
      SubsetOfSameSize(seen, ids);
    }
    if none {
      assert ids == seen;
    }
  }

  /** Nothing is left exactly when every candidate's id was sent. */
  lemma NoneLeftIffAllSeen(candidates: seq<Question>, previous: seq<Json>)
    ensures Remaining(candidates, previous) == [] <==> IdsOf(candidates) <= SeenIds(previous)
  {
    var left := Remaining(candidates, previous);
    if left != [] {
      assert left[0] in left;
    }
    if !(IdsOf(candidates) <= SeenIds(previous)) {
      var id :| id in IdsOf(candidates) && id !in SeenIds(previous);
      var q :| q in candidates && q.id == id;
      assert q in left;
    }
  }

  /**
   * When the ids sent are distinct ids of candidates, the count test means what it is meant to:
   * the quiz is exhausted exactly when no unseen candidate is left.
   */
  lemma ExhaustionMatchesSetEquality(candidates: seq<Question>, previous: seq<Json>)
    requires UniqueQuestionIds(candidates)
    requires forall i :: 0 <= i < |previous| ==> previous[i].JNum? && previous[i].n in IdsOf(candidates)
    requires forall i, j :: 0 <= i < j < |previous| ==> previous[i] != previous[j]
    ensures |previous| == |candidates| <==> Remaining(candidates, previous) == []
  {
    IdsOfDistinct(candidates);
    SeenIdsOfDistinctNumbers(previous);
    NoneLeftIffAllSeen(candidates, previous);
    var ids := IdsOf(candidates);
    var seen := SeenIds(previous);
    assert seen <= ids by {
      forall id | id in seen ensures id in ids {
        var i :| 0 <= i < |previous| && IntEquals(id, previous[i]);
      }
    }
    SizesAgreeWithCover(ids, seen, Remaining(candidates, previous) == []);
  }

  /** A stale id from another category ends the quiz although an unseen candidate is left. */
  lemma StaleIdEndsQuizEarly()
    ensures var first := Question(1, "Q1", "A1", 1, 1);
      var second := Question(2, "Q2", "A2", 1, 1);
      PickQuestion([first, second], [JNum(1), JNum(99)], 0) == Exhausted
      && second in Remaining([first, second], [JNum(1), JNum(99)])
  {
    var first := Question(1, "Q1", "A1", 1, 1);
    var second := Question(2, "Q2", "A2", 1, 1);
    assert !Seen(2, [JNum(1), JNum(99)]);
  }

  /** An id sent twice lets the counts differ with nothing left to choose from: the request fails. */
  lemma RepeatedIdFailsChoice()
    ensures PickQuestion([Question(1, "Q1", "A1", 1, 1)], [JNum(1), JNum(1)], 0) == EmptyChoice
  {
    assert IntEquals(1, [JNum(1), JNum(1)][0]);
  }
}
