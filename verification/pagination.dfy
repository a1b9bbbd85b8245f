/**
 * `paginate_questions`: page `p` is the Python slice `xs[(p-1)*10 : p*10]`.
 * Python clamps slice bounds to the list and counts negative bounds from its
 * end, so a page past the end is empty and a negative page number selects a
 * window counted back from the end of the list.
 */
module Pagination {
  import Records

  const QuestionsPerPage: nat := 10

  /** How Python normalises one bound of `xs[start:stop]` for a list of length `n`. */
  function SliceBound(i: int, n: nat): (k: nat)
    ensures k <= n
  {
    if i < 0 then (if i + n < 0 then 0 else i + n)
    else if i > n then n
    else i
  }

  /** Python's `xs[start:stop]` with step 1. */
  function Slice<T>(xs: seq<T>, start: int, stop: int): (r: seq<T>)
    ensures |r| <= |xs|
    ensures forall i :: 0 <= i < |r| ==> r[i] in xs
  {
    var lo := SliceBound(start, |xs|);
    var hi := SliceBound(stop, |xs|);
    if lo < hi then xs[lo..hi] else []
  }

  function Paginate(page: int, xs: seq<Records.Question>): (r: seq<Records.Question>)
    ensures |r| <= QuestionsPerPage
    ensures forall i :: 0 <= i < |r| ==> r[i] in xs
    // a positive page is the window [(page-1)*10, page*10) cut off at the end of the list
    ensures page >= 1 ==> (r == [] <==> (page - 1) * QuestionsPerPage >= |xs|)
    ensures page >= 1 ==> forall i :: 0 <= i < |r| ==>
              (page - 1) * QuestionsPerPage + i < |xs| && r[i] == xs[(page - 1) * QuestionsPerPage + i]
    ensures page >= 1 && page * QuestionsPerPage <= |xs| ==> |r| == QuestionsPerPage
    ensures page >= 1 && (page - 1) * QuestionsPerPage < |xs| < page * QuestionsPerPage ==>
              |r| == |xs| - (page - 1) * QuestionsPerPage
    // page 0 is always empty; a negative page counts back from the end of the list
    ensures page == 0 ==> r == []
    ensures page < 0 && |xs| <= -page * QuestionsPerPage ==> r == []
    ensures page < 0 && -page * QuestionsPerPage < |xs| < (1 - page) * QuestionsPerPage ==>
              |r| == |xs| + page * QuestionsPerPage && forall i :: 0 <= i < |r| ==> r[i] == xs[i]
    ensures page < 0 && (1 - page) * QuestionsPerPage <= |xs| ==>
              |r| == QuestionsPerPage &&
              forall i :: 0 <= i < |r| ==> r[i] == xs[|xs| + (page - 1) * QuestionsPerPage + i]
  {
    var start := (page - 1) * QuestionsPerPage;
    Slice(xs, start, start + QuestionsPerPage)
  }

  /** The concatenation of pages `page`, `page + 1`, ... up to the last non-empty one. */
  function PagesFrom(xs: seq<Records.Question>, page: nat): seq<Records.Question>
    requires page >= 1
    decreases |xs| - (page - 1) * QuestionsPerPage
  {
    if (page - 1) * QuestionsPerPage >= |xs| then []
    else Paginate(page, xs) + PagesFrom(xs, page + 1)
  }

  /** Reading the pages from `page` onwards yields the list from that page's first index on. */
  lemma {:induction false} PagesFromIsSuffix(xs: seq<Records.Question>, page: nat)
    requires page >= 1
    ensures (page - 1) * QuestionsPerPage <= |xs| ==>
              PagesFrom(xs, page) == xs[(page - 1) * QuestionsPerPage..]
    ensures (page - 1) * QuestionsPerPage > |xs| ==> PagesFrom(xs, page) == []
    decreases |xs| - (page - 1) * QuestionsPerPage
  {
    var start := (page - 1) * QuestionsPerPage;
    if start < |xs| {
      PagesFromIsSuffix(xs, page + 1);
      var r := Paginate(page, xs);
      if page * QuestionsPerPage <= |xs| {
        assert r == xs[start..start + QuestionsPerPage];
        assert xs[start..] == xs[start..start + QuestionsPerPage] + xs[start + QuestionsPerPage..];
      } else {
        assert r == xs[start..];
      }
    }
  }

  /** The pages partition the list: reading every page from the first reproduces it exactly. */
  lemma PagesCoverList(xs: seq<Records.Question>)
    ensures PagesFrom(xs, 1) == xs
  {
    PagesFromIsSuffix(xs, 1);
  }
}
