/**
 * The paginator of paginator.h, over integer positions instead of iterators: it cuts the range
 * [begin, end) into consecutive pages of `pageSize` positions, the last one possibly shorter.
 */
module Paginator {

  /** `IteratorRange`: the positions [begin, end). */
  datatype IteratorRange = IteratorRange(begin: int, end: int) {

    /** `end_ - begin_`, for a range whose end is not before its begin. */
    function Size(): (n: nat)
      requires begin <= end
      ensures begin + n == end
    {
      end - begin
    }
  }

  /** `operator==`: two ranges are equal when their begins and their ends are. */
  function Equal(left: IteratorRange, right: IteratorRange): (equal: bool)
    ensures equal <==> left == right
  {
    left.begin == right.begin && left.end == right.end
  }

  /** The pages the constructor's loop produces from cursor `b` on; with no page size it only ends on an empty range. */
  function PageSplit(b: int, end: int, pageSize: nat): (pages: seq<IteratorRange>)
    requires pageSize > 0 || end <= b
    ensures forall i :: 0 <= i < |pages| ==> b <= pages[i].begin < pages[i].end <= end
    decreases end - b
  {
    if b + pageSize < end then [IteratorRange(b, b + pageSize)] + PageSplit(b + pageSize, end, pageSize)
    else if b < end then [IteratorRange(b, end)]
    else []
  }

  /** The pages follow one another without gap or overlap, from `b` to `end`. */
  lemma {:induction false} PageSplitContiguous(b: int, end: int, pageSize: nat)
    requires pageSize > 0 || end <= b
    ensures var pages := PageSplit(b, end, pageSize);
            && (pages == [] <==> end <= b)
            && (pages != [] ==> pages[0].begin == b && pages[|pages| - 1].end == end)
            && forall i :: 0 <= i < |pages| - 1 ==> pages[i].end == pages[i + 1].begin
    decreases end - b
  {
    if b + pageSize < end {
      PageSplitContiguous(b + pageSize, end, pageSize);
    }
  }

  /** Every page but the last has `pageSize` positions; the last has between 1 and `pageSize`. */
  lemma {:induction false} PageSplitSizes(b: int, end: int, pageSize: nat)
    requires pageSize > 0 || end <= b
    ensures var pages := PageSplit(b, end, pageSize);
            && (forall i :: 0 <= i < |pages| ==> pages[i].begin < pages[i].end)
            && (forall i :: 0 <= i < |pages| - 1 ==> pages[i].end - pages[i].begin == pageSize)
            && (pages != [] ==> 1 <= pages[|pages| - 1].Size() <= pageSize)
    decreases end - b
  {
    if b + pageSize < end {
      PageSplitSizes(b + pageSize, end, pageSize);
    }
  }

  lemma {:induction false} MultipleAtLeast(k: int, d: int)
    requires k >= 1 && d > 0
    ensures k * d >= d
    decreases k
  {
    if k > 1 {
      MultipleAtLeast(k - 1, d);
      assert k * d == (k - 1) * d + d;
    }
  }

  /** Euclidean division has one quotient and one remainder. */
  lemma DivisionUnique(x: int, d: int, q: int, r: int)
    requires d > 0 && 0 <= r < d && x == q * d + r
    ensures x / d == q
  {
    var q', r' := x / d, x % d;
    assert x == q' * d + r';
    if q' < q {
      assert (q - q') * d == r' - r;
      MultipleAtLeast(q - q', d);
    } else if q' > q {
      assert (q' - q) * d == r - r';
      MultipleAtLeast(q' - q, d);
    }
  }

  /** One more full page adds one to the ceiling. */
  lemma CeilingStep(n: int, pageSize: nat)
    requires pageSize > 0 && n > pageSize
    ensures (n + pageSize - 1) / pageSize == (n - pageSize + pageSize - 1) / pageSize + 1
  {
    var m := n - 1;
    DivisionUnique(m + pageSize, pageSize, m / pageSize + 1, m % pageSize);
  }

  /** The number of pages is the ceiling of (end - begin) / pageSize, and 0 for an empty range. */
  lemma {:induction false} PageSplitCount(b: int, end: int, pageSize: nat)
    requires pageSize > 0 || end <= b
    ensures |PageSplit(b, end, pageSize)| == if end <= b then 0 else (end - b + pageSize - 1) / pageSize
    decreases end - b
  {
    if b + pageSize < end {
      PageSplitCount(b + pageSize, end, pageSize);
      CeilingStep(end - b, pageSize);
    } else if b < end {
      DivisionUnique(end - b + pageSize - 1, pageSize, 1, end - b - 1);
    }
  }

  /** The elements of `s` on the pages, concatenated. */
  function Flatten<T>(s: seq<T>, pages: seq<IteratorRange>): seq<T>
    requires forall i :: 0 <= i < |pages| ==> 0 <= pages[i].begin <= pages[i].end <= |s|
  {
    if pages == [] then [] else s[pages[0].begin..pages[0].end] + Flatten(s, pages[1..])
  }

  /** Reading the pages of a part of `s` in order gives back exactly that part. */
  lemma {:induction false} PageSplitFlatten<T>(s: seq<T>, b: int, end: int, pageSize: nat)
    requires (pageSize > 0 || end <= b) && 0 <= b <= end <= |s|
    ensures var pages := PageSplit(b, end, pageSize);
            && (forall i :: 0 <= i < |pages| ==> b <= pages[i].begin <= pages[i].end <= end)
            && Flatten(s, pages) == s[b..end]
    decreases end - b
  {
    var pages := PageSplit(b, end, pageSize);
    if b + pageSize < end {
      PageSplitFlatten(s, b + pageSize, end, pageSize);
      assert pages[1..] == PageSplit(b + pageSize, end, pageSize);
      assert s[b..end] == s[b..b + pageSize] + s[b + pageSize..end];
    } else if b < end {
      assert s[b..end] + [] == s[b..end];
    }
  }

  /** `Paginator`: the pages of [begin, end), computed once by the constructor. */
  class Paginator {
    const pages: seq<IteratorRange>

    constructor (begin: int, end: int, pageSize: nat)
      requires pageSize > 0 || end <= begin
      ensures pages == PageSplit(begin, end, pageSize)
      ensures pages == [] <==> end <= begin
      ensures pages != [] ==> pages[0].begin == begin && pages[|pages| - 1].end == end
      ensures forall i :: 0 <= i < |pages| - 1 ==> pages[i].end == pages[i + 1].begin
      ensures forall i :: 0 <= i < |pages| ==> pages[i].begin < pages[i].end
      ensures forall i :: 0 <= i < |pages| - 1 ==> pages[i].Size() == pageSize
      ensures pages != [] ==> 1 <= pages[|pages| - 1].Size() <= pageSize
      ensures |pages| == if end <= begin then 0 else (end - begin + pageSize - 1) / pageSize
    {
      var b := begin;
      var split: seq<IteratorRange> := [];
      while b + pageSize < end
        invariant split + PageSplit(b, end, pageSize) == PageSplit(begin, end, pageSize)
        decreases end - b
      {
        split := split + [IteratorRange(b, b + pageSize)];
        b := b + pageSize;
      }
      if b < end {
        split := split + [IteratorRange(b, end)];
      }
      pages := split;
      PageSplitContiguous(begin, end, pageSize);
      PageSplitSizes(begin, end, pageSize);
      PageSplitCount(begin, end, pageSize);
    }
  }
}
