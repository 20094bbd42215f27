/**
 * The category dictionary `{category.id: category.type}` that `get_categories` and
 * `get_questions` build by a loop over `Category.query.all()`, and the lookup of one category by id.
 */
module Categories {
  import opened Wrappers
  import opened Trivia

  /** The dictionary after the loop has visited `cats` in order: a later entry for an id overwrites an earlier one. */
  function CategoryMapOf(cats: seq<Category>): (m: map<int, string>)
    ensures m.Keys == set c | c in cats :: c.id
    decreases |cats|
  {
    if cats == [] then map[]
    else
      var last := cats[|cats| - 1];
      assert cats == cats[..|cats| - 1] + [last];
      CategoryMapOf(cats[..|cats| - 1])[last.id := last.kind]
  }

  /** The loop of lines 54-56 and 82-84. */
  method BuildCategoryMap(cats: seq<Category>) returns (m: map<int, string>)
    ensures m == CategoryMapOf(cats)
  {
    m := map[];
    var i := 0;
    while i < |cats|
      invariant 0 <= i <= |cats|
      invariant m == CategoryMapOf(cats[..i])
    {
      assert cats[..i + 1][..i] == cats[..i];
      m := m[cats[i].id := cats[i].kind];
      i := i + 1;
    }
    assert cats[..i] == cats;
  }

  /** The dictionary is empty exactly when there are no categories. */
  lemma EmptyMapIffNoCategories(cats: seq<Category>)
    ensures |CategoryMapOf(cats)| == 0 <==> cats == []
  {
    if cats != [] {
      assert cats[0].id in CategoryMapOf(cats);
    }
  }

  /** With distinct ids the dictionary has one entry per category, mapping its id to its type. */
  lemma {:induction false} CategoryMapEntries(cats: seq<Category>)
    requires UniqueCategoryIds(cats)
    ensures |CategoryMapOf(cats)| == |cats|
    ensures forall c :: c in cats ==> CategoryMapOf(cats)[c.id] == c.kind
  {
    if cats != [] {
      var init := cats[..|cats| - 1];
      var last := cats[|cats| - 1];
      assert cats == init + [last];
      CategoryMapEntries(init);
      assert last.id !in CategoryMapOf(init);
      forall c | c in cats ensures CategoryMapOf(cats)[c.id] == c.kind {
        if c != last {
          assert c in init;
          var j :| 0 <= j < |init| && init[j] == c;
          assert cats[j].id != cats[|cats| - 1].id;
        }
      }
    }
  }

  /** `Category.query.filter_by(id=id).one_or_none()`, taking the first row with that id. */
  function FindCategory(cats: seq<Category>, id: int): (r: Option<Category>)
    ensures r.None? <==> forall c :: c in cats ==> c.id != id
    ensures r.Some? ==> r.value in cats && r.value.id == id
  {
    if cats == [] then None
    else if cats[0].id == id then Some(cats[0])
    else FindCategory(cats[1..], id)
  }

  /** The category found for an id carries the type the dictionary lists for that id. */
  lemma FoundCategoryIsListed(cats: seq<Category>, id: int)
    requires UniqueCategoryIds(cats)
    ensures FindCategory(cats, id).Some? <==> id in CategoryMapOf(cats)
    ensures FindCategory(cats, id).Some? ==> CategoryMapOf(cats)[id] == FindCategory(cats, id).value.kind
  {
    CategoryMapEntries(cats);
  }
}
