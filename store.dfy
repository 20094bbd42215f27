/**
 * The question table as the handlers mutate it: `question.insert()` appends a row under the next
 * serial id and `question.delete()` removes one row. The category table is read-only, so the
 * handlers take its rows as a value.
 */
module QuestionStore {
  import opened Wrappers
  import opened Trivia

  /** Ids strictly increase along the table, as a serial primary key hands them out. */
  ghost predicate IdsIncreasing(rows: seq<Question>) {
    forall i, j :: 0 <= i < j < |rows| ==> rows[i].id < rows[j].id
  }

  /** The table as the map from id to row; a later row for an id would overwrite an earlier one. */
  ghost function TableOf(rows: seq<Question>): (t: map<int, Question>)
    ensures t.Keys == set q | q in rows :: q.id
    decreases |rows|
  {
    if rows == [] then map[]
    else
      var last := rows[|rows| - 1];
      assert rows == rows[..|rows| - 1] + [last];
      TableOf(rows[..|rows| - 1])[last.id := last]
  }

  /** With distinct ids every row is its id's entry. */
  lemma {:induction false} TableEntries(rows: seq<Question>)
    requires UniqueQuestionIds(rows)
    ensures forall q :: q in rows ==> TableOf(rows)[q.id] == q
  {
    if rows != [] {
      var init := rows[..|rows| - 1];
      var last := rows[|rows| - 1];
      assert rows == init + [last];
      TableEntries(init);
      forall q | q in rows ensures TableOf(rows)[q.id] == q {
        if q != last {
          var j :| 0 <= j < |init| && init[j] == q;
          assert rows[j].id != rows[|rows| - 1].id;
        }
      }
    }
  }

  /** `Question.query.filter_by(id=id).one_or_none()`: the index of the row with that id. */
  function FindQuestion(rows: seq<Question>, id: int): (r: Option<nat>)
    ensures r.None? <==> forall q :: q in rows ==> q.id != id
    ensures r.Some? ==> r.value < |rows| && rows[r.value].id == id
  {
    if rows == [] then None
    else if rows[0].id == id then Some(0)
    else match FindQuestion(rows[1..], id)
      case None => None
      case Some(k) => Some(k + 1)
  }

  /** The rows left after cutting out index `k` are the rows with another id. */
  lemma CutMembers(rows: seq<Question>, k: nat)
    requires UniqueQuestionIds(rows) && k < |rows|
    ensures forall q :: q in rows[..k] + rows[k + 1..] <==> q in rows && q.id != rows[k].id
  {
    var rest := rows[..k] + rows[k + 1..];
    forall q | q in rest ensures q in rows && q.id != rows[k].id {
      var i :| 0 <= i < |rest| && rest[i] == q;
      if i < k { assert rest[i] == rows[i]; } else { assert rest[i] == rows[i + 1]; }
    }
    forall q | q in rows && q.id != rows[k].id ensures q in rest {
      var i :| 0 <= i < |rows| && rows[i] == q;
      if i < k { assert rest[i] == q; } else { assert rest[i - 1] == q; }
    }
  }

  lemma CutKeepsUnique(rows: seq<Question>, k: nat)
    requires UniqueQuestionIds(rows) && k < |rows|
    ensures UniqueQuestionIds(rows[..k] + rows[k + 1..])
  {
    var rest := rows[..k] + rows[k + 1..];
    forall i, j | 0 <= i < j < |rest| ensures rest[i].id != rest[j].id {
      assert rest[i] == rows[if i < k then i else i + 1];
      assert rest[j] == rows[if j < k then j else j + 1];
    }
  }

  /** A table holding exactly the rows of another whose id is not `id` is that table's map without `id`. */
  lemma TableWithout(rows: seq<Question>, rest: seq<Question>, id: int)
    requires UniqueQuestionIds(rows) && UniqueQuestionIds(rest)
    requires forall q :: q in rest <==> q in rows && q.id != id
    ensures TableOf(rest) == TableOf(rows) - {id}
  {
    TableEntries(rows);
    TableEntries(rest);
    var after, before := TableOf(rest), TableOf(rows) - {id};
    assert after.Keys == before.Keys by {
      forall x | x in before.Keys ensures x in after.Keys {
        var q :| q in rows && q.id == x;
        assert q in rest;
      }
    }
    forall x | x in after.Keys ensures after[x] == before[x] {
      var q :| q in rest && q.id == x;
    }
  }

  /** Removing the row at `k` removes exactly its id from the map view. */
  lemma TableAfterCut(rows: seq<Question>, k: nat)
    requires UniqueQuestionIds(rows) && k < |rows|
    ensures UniqueQuestionIds(rows[..k] + rows[k + 1..])
    ensures TableOf(rows[..k] + rows[k + 1..]) == TableOf(rows) - {rows[k].id}
  {
    CutKeepsUnique(rows, k);
    CutMembers(rows, k);
    TableWithout(rows, rows[..k] + rows[k + 1..], rows[k].id);
  }

  /** Every id is positive and below `bound`, the serial counter's next value. */
  ghost predicate IdsBelow(rows: seq<Question>, bound: int) {
    forall i :: 0 <= i < |rows| ==> 0 < rows[i].id < bound
  }

  lemma IncreasingIsUnique(rows: seq<Question>)
    requires IdsIncreasing(rows)
    ensures UniqueQuestionIds(rows)
  {
    forall i, j | 0 <= i < j < |rows| ensures rows[i].id != rows[j].id {
      assert rows[i].id < rows[j].id;
    }
  }

  /** Cutting out a row keeps the ids increasing and within the bounds they had. */
  lemma CutKeepsIncreasing(rows: seq<Question>, k: nat, bound: int)
    requires IdsIncreasing(rows) && k < |rows|
    requires IdsBelow(rows, bound)
    ensures IdsIncreasing(rows[..k] + rows[k + 1..])
    ensures IdsBelow(rows[..k] + rows[k + 1..], bound)
  {
    var rest := rows[..k] + rows[k + 1..];
    forall i | 0 <= i < |rest| ensures rest[i] == rows[if i < k then i else i + 1] {
    }
  }

  class Store {
    var rows: seq<Question>
    var nextId: int

    ghost predicate Valid()
      reads this
    {
      && IdsIncreasing(rows)
      && nextId >= 1
      && IdsBelow(rows, nextId)
    }

    /** The view of the question table as a finite map from id to question. */
    ghost function Table(): map<int, Question>
      reads this
      requires Valid()
    {
      IncreasingIsUnique(rows);
      TableOf(rows)
    }

    /** A database holding these rows, its serial counter just past the largest id. */
    constructor (rows: seq<Question>)
      requires IdsIncreasing(rows) && forall i :: 0 <= i < |rows| ==> rows[i].id > 0
      ensures Valid()
      ensures this.rows == rows
    {
      this.rows := rows;
      nextId := if rows == [] then 1 else rows[|rows| - 1].id + 1;
      new;
      assert forall i :: 0 <= i < |rows| ==> rows[i].id <= rows[|rows| - 1].id by {
        forall i | 0 <= i < |rows| ensures rows[i].id <= rows[|rows| - 1].id {
          if i < |rows| - 1 { assert rows[i].id < rows[|rows| - 1].id; }
        }
      }
    }

    /** `question.insert()`: the new row takes the next serial id, which no row has. */
    method Insert(question: string, answer: string, category: int, difficulty: int) returns (q: Question)
      requires Valid()
      modifies this
      ensures Valid()
      ensures q == Question(old(nextId), question, answer, category, difficulty)
      ensures q.id > 0 && q.id !in old(Table())
      ensures rows == old(rows) + [q]
      ensures Table() == old(Table())[q.id := q]
      ensures nextId == old(nextId) + 1
    {
      q := Question(nextId, question, answer, category, difficulty);
      rows := rows + [q];
      nextId := nextId + 1;
    }

    /** `question.delete()` on the row at index `k`: only that row goes, the rest keep their order. */
    method Delete(k: nat)
      requires Valid() && k < |rows|
      modifies this
      ensures Valid()
      ensures rows == old(rows[..k] + rows[k + 1..])
      ensures Table() == old(Table()) - {old(rows[k].id)}
      ensures nextId == old(nextId)
    {
      IncreasingIsUnique(rows);
      TableAfterCut(rows, k);
      CutKeepsIncreasing(rows, k, nextId);
      rows := rows[..k] + rows[k + 1..];
    }
  }
}
