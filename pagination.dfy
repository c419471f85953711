/** `paginate_questions`: a page of at most ten serialized questions, cut out
    of a selection with Python's slice semantics. */
module Pagination {
  import opened Optional

  const QuestionsPerPage: nat := 10

  function Min(a: int, b: int): int { if a <= b then a else b }
  function Max(a: int, b: int): int { if a <= b then b else a }

  /** `request.args.get('page', 1, type=int)`: `arg` is None when the query
      string has no `page` or its value is not an integer, and then the page
      is 1. Any integer, zero and negatives included, is taken as it is. */
  function PageNumber(arg: Option<int>): (page: int)
    ensures arg.None? ==> page == 1
    ensures arg.Some? ==> page == arg.value
  {
    match arg
    case None => 1
    case Some(p) => p
  }

  /** Python's normalisation of one slice bound against a length `n`: a
      negative bound counts from the end, and the result is clamped to
      `0..n`. */
  function SliceBound(i: int, n: nat): (b: nat)
    ensures b <= n
  {
    if i < 0 then Max(0, n + i) else Min(i, n)
  }

  /** `s[i:j]` for a list `s`: empty unless the normalised start lies before
      the normalised end. */
  function PySlice<T>(s: seq<T>, i: int, j: int): (r: seq<T>)
    ensures |r| == Max(0, SliceBound(j, |s|) - SliceBound(i, |s|))
    ensures r <= s[SliceBound(i, |s|)..]
  {
    var lo, hi := SliceBound(i, |s|), SliceBound(j, |s|);
    if lo < hi then s[lo..hi] else []
  }

  /** First index of page `page`, `(page - 1) * QUESTIONS_PER_PAGE`. */
  function PageStart(page: int): int
  {
    (page - 1) * QuestionsPerPage
  }

  /** `paginate_questions(request, selection)` for page number `page`:
      `selection[start:start + 10]`. Serializing a question is the identity
      here, so the page holds the selection's own records. Whatever the page
      number, the page never holds more than ten records and is a run of
      consecutive records of the selection, in selection order, starting at
      the normalised start index. */
  function Paginate<T>(selection: seq<T>, page: int): (r: seq<T>)
    ensures |r| <= QuestionsPerPage
    ensures r <= selection[SliceBound(PageStart(page), |selection|)..]
  {
    var start := PageStart(page);
    PySlice(selection, start, start + QuestionsPerPage)
  }

  /** For a page number of 1 or more the page is exactly the records from
      index `(page - 1) * 10` up to `min(page * 10, |selection|)`. */
  lemma PositivePage<T>(selection: seq<T>, page: int)
    requires page >= 1
    ensures Paginate(selection, page)
         == selection[Min(PageStart(page), |selection|)..Min(PageStart(page) + QuestionsPerPage, |selection|)]
    ensures |Paginate(selection, page)| == Max(0, Min(QuestionsPerPage, |selection| - PageStart(page)))
    ensures forall k :: 0 <= k < |Paginate(selection, page)| ==>
              Paginate(selection, page)[k] == selection[PageStart(page) + k]
  {
  }

  /** A page that starts at or beyond the end of the selection is empty, and
      asking for it is not an error. */
  lemma PageBeyondEnd<T>(selection: seq<T>, page: int)
    requires PageStart(page) >= |selection|
    ensures Paginate(selection, page) == []
  {
  }

  /** Page 0 is always empty: its slice is `selection[-10:0]` and the end
      bound 0 is not counted from the end. */
  lemma PageZero<T>(selection: seq<T>)
    ensures Paginate(selection, 0) == []
  {
  }

  /** A negative page counts from the end of the selection: page -1 gives the
      ten records before the last ten, page -2 the ten before those, and so
      on, clamped at the front. */
  lemma NegativePage<T>(selection: seq<T>, page: int)
    requires page < 0
    ensures Paginate(selection, page)
         == selection[Max(0, |selection| + PageStart(page))..Max(0, |selection| + PageStart(page) + QuestionsPerPage)]
  {
  }

  /** For a page number of 1 or more, the page is empty exactly when it starts
      at or beyond the end of the selection. */
  lemma PositivePageEmptyIff<T>(selection: seq<T>, page: int)
    requires page >= 1
    ensures Paginate(selection, page) == [] <==> PageStart(page) >= |selection|
  {
    PositivePage(selection, page);
  }

  /** Every record of a page is a record of the selection. */
  lemma PageMembers<T>(selection: seq<T>, page: int)
    ensures forall x :: x in Paginate(selection, page) ==> x in selection
  {
    var lo := SliceBound(PageStart(page), |selection|);
    forall x | x in Paginate(selection, page)
      ensures x in selection
    {
      var k :| 0 <= k < |Paginate(selection, page)| && Paginate(selection, page)[k] == x;
      assert selection[lo..][k] == selection[lo + k];
    }
  }

  /** Pages 1 to `k`, one after another. */
  function FirstPages<T>(selection: seq<T>, k: nat): seq<T>
  {
    if k == 0 then [] else FirstPages(selection, k - 1) + Paginate(selection, k)
  }

  /** Reading pages 1, 2, ..., k in turn yields the selection's first
      `min(10 * k, |selection|)` records in order: no record is skipped or
      repeated. */
  lemma {:induction false} FirstPagesArePrefix<T>(selection: seq<T>, k: nat)
    ensures FirstPages(selection, k) == selection[..Min(k * QuestionsPerPage, |selection|)]
  {
    if k > 0 {
      FirstPagesArePrefix(selection, k - 1);
      PositivePage(selection, k);
      var a, b := Min((k - 1) * QuestionsPerPage, |selection|), Min(k * QuestionsPerPage, |selection|);
      assert selection[..a] + selection[a..b] == selection[..b];
    }
  }

  /** Number of pages a selection of `n` records fills. */
  function PageCount(n: nat): nat
  {
    (n + QuestionsPerPage - 1) / QuestionsPerPage
  }

  /** The pages 1 to PageCount(|selection|) together are the whole
      selection, and every page past the last one is empty. */
  lemma PagesPartitionSelection<T>(selection: seq<T>)
    ensures FirstPages(selection, PageCount(|selection|)) == selection
    ensures forall page :: page > PageCount(|selection|) ==> Paginate(selection, page) == []
  {
    FirstPagesArePrefix(selection, PageCount(|selection|));
    forall page | page > PageCount(|selection|)
      ensures Paginate(selection, page) == []
    {
      PageBeyondEnd(selection, page);
    }
  }
}
