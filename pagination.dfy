/**
 * `paginate_questions`: format every record of a selection, then take the Python slice
 * `[(page - 1) * 10 : (page - 1) * 10 + 10]`.
 */
module Pagination {
  import opened Wrappers
  import opened Seqs
  import opened Trivia

  const QuestionsPerPage: nat := 10

  /** `request.args.get('page', 1, type=int)`: `arg` is the argument read as an integer, `None` when absent or not numeric. */
  function PageOf(arg: Option<int>): (p: int)
    ensures arg.None? ==> p == 1
    ensures arg.Some? ==> p == arg.value
  {
    match arg
    case None => 1
    case Some(p) => p
  }

  /** Python's normalisation of one slice bound against a sequence of length `len`. */
  function SliceBound(i: int, len: nat): (b: nat)
    ensures b <= len
    ensures 0 <= i <= len ==> b == i
  {
    if i < 0 then Max(0, i + len) else Min(i, len)
  }

  /** Python's `s[start:end]` with step 1, negative bounds counting from the end. */
  function PySlice<T>(s: seq<T>, start: int, end: int): (r: seq<T>)
    ensures SliceBound(start, |s|) + |r| <= |s|
    ensures forall i :: 0 <= i < |r| ==> r[i] == s[SliceBound(start, |s|) + i]
    ensures 0 <= start <= end ==> r == if start < |s| then s[start..Min(end, |s|)] else []
  {
    var a := SliceBound(start, |s|);
    var b := SliceBound(end, |s|);
    if a < b then s[a..b] else []
  }

  /** The selection's records formatted one by one, in the selection's order. */
  function FormatAll(selection: seq<Question>): (r: seq<QuestionView>)
    ensures |r| == |selection|
    ensures forall i :: 0 <= i < |selection| ==> r[i] == Format(selection[i])
  {
    seq(|selection|, i requires 0 <= i < |selection| => Format(selection[i]))
  }

  /**
   * One page of a selection. From page 1 on it is the formatted run of questions starting at
   * index (page - 1) * 10, at most ten long, and empty exactly when the page starts past the end.
   */
  function Paginate(selection: seq<Question>, page: int): (r: seq<QuestionView>)
    ensures |r| <= QuestionsPerPage
    ensures forall v :: v in r ==> exists q :: q in selection && v == Format(q)
    ensures page >= 1 ==> |r| == Min(QuestionsPerPage, Max(0, |selection| - (page - 1) * QuestionsPerPage))
    ensures page >= 1 ==> forall i :: 0 <= i < |r| ==> r[i] == Format(selection[(page - 1) * QuestionsPerPage + i])
    ensures page >= 1 ==> (r == [] <==> |selection| <= (page - 1) * QuestionsPerPage)
    ensures page == 0 ==> r == []
  {
    var start := (page - 1) * QuestionsPerPage;
    var r := PySlice(FormatAll(selection), start, start + QuestionsPerPage);
    assert forall v :: v in r ==> exists q :: q in selection && v == Format(q) by {
      forall v | v in r ensures exists q :: q in selection && v == Format(q) {
        var i :| 0 <= i < |r| && r[i] == v;
        assert selection[SliceBound(start, |selection|) + i] in selection;
      }
    }
    r
  }

  /** Pages 1 to n, one after the other. */
  function Pages(selection: seq<Question>, n: nat): seq<QuestionView> {
    if n == 0 then [] else Pages(selection, n - 1) + Paginate(selection, n)
  }

  /** Pages 1 to n list the first 10 * n formatted questions in order, none skipped or repeated. */
  lemma {:induction false} PagesArePrefix(selection: seq<Question>, n: nat)
    ensures Pages(selection, n) == FormatAll(selection)[..Min(n * QuestionsPerPage, |selection|)]
  {
    if n > 0 {
      PagesArePrefix(selection, n - 1);
      var all := FormatAll(selection);
      var lo := Min((n - 1) * QuestionsPerPage, |selection|);
      var hi := Min(n * QuestionsPerPage, |selection|);
      var page := Paginate(selection, n);
      assert page == all[lo..hi] by {
        assert |page| == hi - lo;
        forall i | 0 <= i < |page| ensures page[i] == all[lo..hi][i] {
        }
      }
      assert all[..lo] + all[lo..hi] == all[..hi];
    }
  }

  /** The pages up to the last non-empty one hold every formatted question, and the page after is empty. */
  lemma EveryQuestionOnSomePage(selection: seq<Question>)
    ensures var last := (|selection| + QuestionsPerPage - 1) / QuestionsPerPage;
      Pages(selection, last) == FormatAll(selection) && Paginate(selection, last + 1) == []
  {
    var last := (|selection| + QuestionsPerPage - 1) / QuestionsPerPage;
    PagesArePrefix(selection, last);
    assert Min(last * QuestionsPerPage, |selection|) == |selection|;
  }
}
