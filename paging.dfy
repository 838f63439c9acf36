/** `paginate_question`: ten formatted questions per page, cut out of the
    whole selection with a Python slice. */
module Paging {
  import opened Store

  const QuestionsPerPage: nat := 10

  function Min(a: int, b: int): int { if a <= b then a else b }

  /** How Python normalises a slice bound `i` for a list of length `n`: a
      negative bound counts from the end, and the result is clamped to `[0, n]`. */
  function SliceBound(i: int, n: nat): (b: nat)
    ensures b <= n
  {
    if i < 0 then (if i + n < 0 then 0 else i + n) else if i > n then n else i
  }

  /** Python's `s[start:end]` for any integer bounds: the elements from the
      normalised start bound up to, not including, the normalised end bound,
      and nothing when the end bound does not lie past the start bound. */
  function Slice<T>(s: seq<T>, start: int, end: int): (r: seq<T>)
    ensures |r| == if SliceBound(start, |s|) < SliceBound(end, |s|)
                   then SliceBound(end, |s|) - SliceBound(start, |s|) else 0
    ensures SliceBound(start, |s|) + |r| <= |s|
    ensures forall i :: 0 <= i < |r| ==> r[i] == s[SliceBound(start, |s|) + i]
  {
    var lo, hi := SliceBound(start, |s|), SliceBound(end, |s|);
    if lo < hi then s[lo..hi] else []
  }

  /** With non-negative bounds a Python slice is the ordinary sub-sequence
      between the bounds, each bound cut down to the length of the list. */
  lemma SliceNonNegative<T>(s: seq<T>, start: int, end: int)
    requires 0 <= start
    requires 0 <= end
    ensures Slice(s, start, end) == if start < end && start < |s| then s[start..Min(end, |s|)] else []
  {
  }

  /** A negative bound that reaches no further back than the start of the list
      stands for the bound `|s|` positions later: `s[-a:-b]` is `s[n-a:n-b]`. */
  lemma SliceNegativeBounds<T>(s: seq<T>, start: int, end: int)
    requires -|s| <= start < 0
    requires -|s| <= end < 0
    ensures Slice(s, start, end) == Slice(s, start + |s|, end + |s|)
  {
  }

  /** A negative bound reaching past the start of the list is read as 0:
      `s[-m:end]` with `m > |s|` is `s[0:end]`. */
  lemma SliceClampsFarNegativeStart<T>(s: seq<T>, start: int, end: int)
    requires start < -|s|
    ensures Slice(s, start, end) == Slice(s, 0, end)
  {
  }

  /** `request.args.get('page', 1, type=int)`: `None` stands for an argument
      that is absent or is not an integer; both give page 1. */
  function RequestedPage(arg: Option<int>): (page: int)
    ensures arg.None? ==> page == 1
    ensures arg.Some? ==> page == arg.value
  {
    match arg
    case None => 1
    case Some(p) => p
  }

  /** `[question.format() for question in selection]`. */
  function FormatAll<F>(selection: seq<Question>, format: Question -> F): (r: seq<F>)
    ensures |r| == |selection|
    ensures forall i :: 0 <= i < |r| ==> r[i] == format(selection[i])
  {
    seq(|selection|, i requires 0 <= i < |selection| => format(selection[i]))
  }

  /** `r` is the formatted form of the contiguous run of `selection` that
      starts at position `lo`. */
  ghost predicate IsFormattedRun<F>(r: seq<F>, selection: seq<Question>, format: Question -> F, lo: int) {
    0 <= lo && lo + |r| <= |selection| && forall i :: 0 <= i < |r| ==> r[i] == format(selection[lo + i])
  }

  /** `paginate_question`, with the page already read from the request. For
      a page number of 1 or more the result holds exactly the formatted
      questions at positions `(page-1)*10` up to `min(page*10, |selection|) - 1`,
      in selection order, and it is empty exactly when the page starts past
      the end. */
  function PaginateQuestions<F>(selection: seq<Question>, page: int, format: Question -> F): (r: seq<F>)
    ensures page >= 1 ==> |r| <= QuestionsPerPage
    ensures page >= 1 ==> (|r| == 0 <==> (page - 1) * QuestionsPerPage >= |selection|)
    ensures page >= 1 && (page - 1) * QuestionsPerPage < |selection| ==>
              |r| == Min(page * QuestionsPerPage, |selection|) - (page - 1) * QuestionsPerPage
    ensures page >= 1 ==> forall i :: 0 <= i < |r| ==> r[i] == format(selection[(page - 1) * QuestionsPerPage + i])
    ensures exists lo :: IsFormattedRun(r, selection, format, lo)
  {
    var start := (page - 1) * QuestionsPerPage;
    var end := start + QuestionsPerPage;
    var r := Slice(FormatAll(selection, format), start, end);
    assert IsFormattedRun(r, selection, format, SliceBound(start, |selection|));
    r
  }

  /** Page 0 (an explicit `?page=0`) is always empty. */
  lemma PageZeroIsEmpty<F>(selection: seq<Question>, format: Question -> F)
    ensures PaginateQuestions(selection, 0, format) == []
  {
  }

  /** A negative page is not rejected: Python reads the negative slice bounds
      from the end of the list, so page `p < 0` is a full page of ten taken
      `-p*10` positions before the end whenever the selection is long enough. */
  lemma NegativePageCountsFromEnd<F>(selection: seq<Question>, page: int, format: Question -> F)
    requires page < 0
    requires (1 - page) * QuestionsPerPage <= |selection|
    ensures var r := PaginateQuestions(selection, page, format);
      |r| == QuestionsPerPage &&
      forall i :: 0 <= i < |r| ==> r[i] == format(selection[|selection| + (page - 1) * QuestionsPerPage + i])
  {
  }

  /** Pages `1..k` of a selection, concatenated. */
  function PagesUpTo<F>(selection: seq<Question>, k: nat, format: Question -> F): seq<F>
  {
    if k == 0 then [] else PagesUpTo(selection, k - 1, format) + PaginateQuestions(selection, k, format)
  }

  /** Consecutive pages tile the formatted selection with no gap and no
      overlap: pages `1..k` together are its first `min(10k, |selection|)`
      elements, so enough pages give back the whole selection. */
  lemma {:induction false} PagesTile<F>(selection: seq<Question>, k: nat, format: Question -> F)
    ensures PagesUpTo(selection, k, format) == FormatAll(selection, format)[..Min(k * QuestionsPerPage, |selection|)]
  {
    if k > 0 {
      PagesTile(selection, k - 1, format);
      var all := FormatAll(selection, format);
      var lo := Min((k - 1) * QuestionsPerPage, |selection|);
      var hi := Min(k * QuestionsPerPage, |selection|);
      var page := PaginateQuestions(selection, k, format);
      assert page == all[lo..hi];
      assert all[..lo] + all[lo..hi] == all[..hi];
    }
  }
}
