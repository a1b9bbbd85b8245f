/**
 * The two entities the trivia backend stores, and the few queries the routes
 * issue against them, over an in-memory store: `Query.all()` is the whole
 * sequence, `Query.get(id)` a primary-key lookup and `filter_by` a filter that
 * keeps the store's order.
 */
module Records {
  import opened Wrappers

  /** A trivia question; its formatted JSON form carries exactly these five fields. */
  datatype Question = Question(id: int, question: string, answer: string, difficulty: int, category: int)

  /** A category; `typeName` is the column the source calls `type` (e.g. "Art"). */
  datatype Category = Category(id: int, typeName: string)

  /** The whole persistent state: the question table and the category table, in query order. */
  datatype Store = Store(questions: seq<Question>, categories: seq<Category>)

  predicate HasQuestion(qs: seq<Question>, id: int)
  {
    exists i :: 0 <= i < |qs| && qs[i].id == id
  }

  predicate HasCategory(cs: seq<Category>, id: int)
  {
    exists i :: 0 <= i < |cs| && cs[i].id == id
  }

  /** The primary-key invariant of the question table. */
  predicate UniqueQuestionIds(qs: seq<Question>)
  {
    forall i, j :: 0 <= i < j < |qs| ==> qs[i].id != qs[j].id
  }

  /** The primary-key invariant of the category table. */
  predicate UniqueCategoryIds(cs: seq<Category>)
  {
    forall i, j :: 0 <= i < j < |cs| ==> cs[i].id != cs[j].id
  }

  /** `Question.query.get(id)`: the position of the row with that key, if any. */
  function FindQuestion(qs: seq<Question>, id: int): (r: Option<nat>)
    ensures r.None? <==> !HasQuestion(qs, id)
    ensures r.Some? ==> r.value < |qs| && qs[r.value].id == id
    ensures r.Some? ==> forall j :: 0 <= j < r.value ==> qs[j].id != id
  {
    if |qs| == 0 then None
    else if qs[0].id == id then Some(0)
    else
      match FindQuestion(qs[1..], id)
      case None => None
      case Some(k) => Some(k + 1)
  }

  /** `Category.query.get(id)`: the row with that key, if any. */
  function FindCategory(cs: seq<Category>, id: int): (r: Option<Category>)
    ensures r.None? <==> !HasCategory(cs, id)
    ensures r.Some? ==> r.value in cs && r.value.id == id
  {
    if |cs| == 0 then None
    else if cs[0].id == id then Some(cs[0])
    else FindCategory(cs[1..], id)
  }

  /** The rows of `xs` that satisfy `keep`, in their original order. */
  function Filter(xs: seq<Question>, keep: Question -> bool): (r: seq<Question>)
    ensures |r| <= |xs|
    ensures forall x :: multiset(r)[x] == if keep(x) then multiset(xs)[x] else 0
  {
    if |xs| == 0 then []
    else
      assert xs == [xs[0]] + xs[1..];
      (if keep(xs[0]) then [xs[0]] else []) + Filter(xs[1..], keep)
  }

  lemma FilterMembership(xs: seq<Question>, keep: Question -> bool, x: Question)
    ensures x in Filter(xs, keep) <==> x in xs && keep(x)
  {
    assert x in Filter(xs, keep) <==> multiset(Filter(xs, keep))[x] > 0;
    assert x in xs <==> multiset(xs)[x] > 0;
  }

  /** Filtering a table with unique keys keeps the keys unique. */
  lemma {:induction false} FilterKeepsUniqueIds(xs: seq<Question>, keep: Question -> bool)
    requires UniqueQuestionIds(xs)
    ensures UniqueQuestionIds(Filter(xs, keep))
    decreases |xs|
  {
    if |xs| > 0 {
      FilterKeepsUniqueIds(xs[1..], keep);
      var tail := Filter(xs[1..], keep);
      FilteredTailAvoidsHead(xs, keep);
      if keep(xs[0]) {
        assert Filter(xs, keep) == [xs[0]] + tail;
        ConsKeepsUniqueIds(xs[0], tail);
      } else {
        assert Filter(xs, keep) == tail;
      }
    }
  }

  /** No row kept from the rest of a unique-key table shares the first row's key. */
  lemma FilteredTailAvoidsHead(xs: seq<Question>, keep: Question -> bool)
    requires |xs| > 0 && UniqueQuestionIds(xs)
    ensures forall q :: q in Filter(xs[1..], keep) ==> q.id != xs[0].id
  {
    forall q | q in Filter(xs[1..], keep)
      ensures q.id != xs[0].id
    {
      FilterMembership(xs[1..], keep, q);
      var k :| 0 <= k < |xs[1..]| && xs[1..][k] == q;
      assert xs[k + 1] == q;
    }
  }

  /** Putting a row in front of a unique-key table keeps the keys unique when its key is new. */
  lemma ConsKeepsUniqueIds(x: Question, tail: seq<Question>)
    requires UniqueQuestionIds(tail)
    requires forall q :: q in tail ==> q.id != x.id
    ensures UniqueQuestionIds([x] + tail)
  {
    var r := [x] + tail;
    forall i, j | 0 <= i < j < |r|
      ensures r[i].id != r[j].id
    {
      assert r[j] == tail[j - 1];
      assert tail[j - 1] in tail;
      if i > 0 {
        assert r[i] == tail[i - 1];
      }
    }
  }

  /** `Question.query.filter_by(category=c)`. */
  function InCategory(qs: seq<Question>, c: int): (r: seq<Question>)
    ensures forall q :: q in r <==> q in qs && q.category == c
    ensures forall q :: multiset(r)[q] == if q.category == c then multiset(qs)[q] else 0
    ensures UniqueQuestionIds(qs) ==> UniqueQuestionIds(r)
  {
    var r := Filter(qs, (q: Question) => q.category == c);
    assert UniqueQuestionIds(qs) ==> UniqueQuestionIds(r) by {
      if UniqueQuestionIds(qs) {
        FilterKeepsUniqueIds(qs, (q: Question) => q.category == c);
      }
    }
    assert forall q :: q in r <==> q in qs && q.category == c by {
      forall q ensures q in r <==> q in qs && q.category == c {
        FilterMembership(qs, (q: Question) => q.category == c, q);
      }
    }
    r
  }

  function CategoryIds(cs: seq<Category>): set<int>
  {
    set c | c in cs :: c.id
  }

  /** No later row of `cs` shares the id of row `i`. */
  predicate LastWithId(cs: seq<Category>, i: int)
    requires 0 <= i < |cs|
  {
    forall j :: i < j < |cs| ==> cs[j].id != cs[i].id
  }

  /**
   * The `{id: type}` dictionary the routes build by assigning every row in
   * query order, so a later row with a repeated id overwrites an earlier one.
   */
  function CategoryMap(cs: seq<Category>): (m: map<int, string>)
    ensures m.Keys == CategoryIds(cs)
    ensures forall i :: 0 <= i < |cs| && LastWithId(cs, i) ==> m[cs[i].id] == cs[i].typeName
  {
    if |cs| == 0 then map[]
    else
      var init := cs[..|cs| - 1];
      var last := cs[|cs| - 1];
      assert cs == init + [last];
      assert CategoryIds(cs) == CategoryIds(init) + {last.id};
      CategoryMap(init)[last.id := last.typeName]
  }

  /** With unique ids, which the table's primary key guarantees, every category maps to its own type name. */
  lemma CategoryMapLabels(cs: seq<Category>)
    requires UniqueCategoryIds(cs)
    ensures forall c :: c in cs ==> c.id in CategoryMap(cs) && CategoryMap(cs)[c.id] == c.typeName
  {
    forall c | c in cs
      ensures c.id in CategoryMap(cs) && CategoryMap(cs)[c.id] == c.typeName
    {
      var i :| 0 <= i < |cs| && cs[i] == c;
      assert LastWithId(cs, i);
    }
  }
}
