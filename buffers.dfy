/** The read-only Buffer interface (Size and LineAt) and its three implementations:
    a RawLineBuffer's lines, a MemoryBuffer, and a FilteredBuffer that projects a page of
    another buffer through an explicit list of source indices. */
module Buffers {
  import opened Results

  function Min(a: int, b: int): int { if a <= b then a else b }

  function Max(a: int, b: int): int { if a >= b then a else b }

  /** RawLineBuffer.LineAt over the buffer's lines. */
  function RawLineAt<L>(lines: seq<L>, i: int): (r: Result<L>)
    ensures r.Ok? <==> 0 <= i < |lines|
    ensures r.Ok? ==> r.value == lines[i]
    ensures r.Err? ==> r.error == OutOfRange
  {
    if i < 0 || |lines| <= i then Err(OutOfRange) else Ok(lines[i])
  }

  /** MemoryBuffer.LineAt returns rather than panics: a negative index passes the emptiness
      test and then indexes the lines, unless there are none. */
  predicate MemoryCanLookUp<L>(lines: seq<L>, n: int)
  {
    n >= 0 || |lines| == 0
  }

  /** MemoryBuffer.LineAt: the "empty buffer" error for every index past the end. */
  function MemoryLineAt<L>(lines: seq<L>, n: int): (r: Result<L>)
    requires MemoryCanLookUp(lines, n)
    ensures r.Ok? <==> 0 <= n < |lines|
    ensures r.Ok? ==> r.value == lines[n]
    ensures r.Err? ==> r.error == EmptyBuffer
  {
    var s := |lines|;
    if s <= 0 || n >= s then Err(EmptyBuffer) else Ok(lines[n])
  }

  /** A value behind the Buffer interface. A FilteredBuffer holds its source as it is at the
      time of the query. */
  datatype Buffer<L> =
    | Raw(lines: seq<L>)
    | Memory(lines: seq<L>)
    | Filtered(src: Buffer<L>, selection: seq<int>)
  {
    /** Stored lines for the two stores; for a view, its selection's length, not its source's size. */
    function Size(): (r: nat)
      ensures !Filtered? ==> r == |lines|
      ensures Filtered? ==> r == |selection|
    {
      if Filtered? then |selection| else |lines|
    }

    /** The indices at which LineAt returns instead of panicking; a view indexes its
        selection with any index below its length, negative ones included. */
    predicate CanLookUp(i: int)
      decreases this
    {
      match this
      case Raw(_) => true
      case Memory(lines) => MemoryCanLookUp(lines, i)
      case Filtered(src, selection) => 0 <= i && (i < |selection| ==> src.CanLookUp(selection[i]))
    }

    /** Lookup through the interface; a view maps its index through the selection and asks
        its source. */
    function LineAt(i: int): (r: Result<L>)
      requires CanLookUp(i)
      ensures r.Ok? ==> 0 <= i < Size()
      ensures Filtered? && i >= Size() ==> r == Err(OutOfRange)
      decreases this
    {
      match this
      case Raw(lines) => RawLineAt(lines, i)
      case Memory(lines) => MemoryLineAt(lines, i)
      case Filtered(src, selection) =>
        if i >= |selection| then Err(OutOfRange) else src.LineAt(selection[i])
    }

    /** FilteredBuffer.Append: a view accepts a line, hands it back and stores nothing. */
    function Append(l: L): (r: (Result<L>, Buffer<L>))
      requires Filtered?
      ensures r.0 == Ok(l)
      ensures r.1.Filtered? && r.1.Size() == Size() && r.1.Valid() == Valid()
      ensures forall i :: CanLookUp(i) ==> r.1.CanLookUp(i) && r.1.LineAt(i) == LineAt(i)
    {
      (Ok(l), this)
    }

    /** Every selection entry, at every level, is an index of its source. */
    predicate Valid()
      decreases this
    {
      match this
      case Filtered(src, selection) =>
        src.Valid() && forall k :: 0 <= k < |selection| ==> 0 <= selection[k] < src.Size()
      case _ => true
    }

    /** The lines the buffer presents, in index order. */
    function Contents(): (r: seq<L>)
      requires Valid()
      ensures |r| == Size()
      decreases this
    {
      match this
      case Filtered(src, selection) =>
        var c := src.Contents();
        seq(|selection|, k requires 0 <= k < |selection| => c[selection[k]])
      case _ => lines
    }
  }

  /** On a well-formed buffer, every non-negative index can be looked up, and the lookup
      succeeds exactly below Size() and then yields the presented line. */
  lemma {:induction false} ValidLineAt<L>(b: Buffer<L>, i: int)
    requires b.Valid() && 0 <= i
    ensures b.CanLookUp(i)
    ensures b.LineAt(i).Ok? <==> i < b.Size()
    ensures i < b.Size() ==> b.LineAt(i) == Ok(b.Contents()[i])
    decreases b
  {
    match b
    case Filtered(src, selection) =>
      if i < |selection| {
        ValidLineAt(src, selection[i]);
      }
    case _ =>
  }

  /** The consecutive indices from `s` up to, not including, `e`. */
  function Range(s: int, e: int): (r: seq<int>)
    ensures |r| == Max(0, e - s)
    ensures forall k :: 0 <= k < |r| ==> r[k] == s + k
  {
    seq(Max(0, e - s), k => s + k)
  }

  /** The selection of page `page` (counted from 1) with `perPage` lines per page over a
      source of `n` lines: start at perPage * (page - 1), stop at the page end or the source end. */
  function PageSelection(n: nat, page: int, perPage: int): (r: seq<int>)
    ensures |r| <= Max(0, perPage)
    ensures forall k :: 0 <= k < |r| ==> r[k] == PageStart(page, perPage) + k
    ensures |r| > 0 ==> r[|r| - 1] < n
  {
    var s := PageStart(page, perPage);
    if s > n then [] else Range(s, Min(s + perPage, n))
  }

  /** The source index at which page `page` starts. */
  function PageStart(page: int, perPage: int): int
  {
    perPage * (page - 1)
  }

  /** Pages from 1 on, with a non-negative size, start at a non-negative index. */
  lemma PageStartNonNegative(page: int, perPage: int)
    requires page >= 1 && perPage >= 0
    ensures PageStart(page, perPage) >= 0
  {
    assert perPage * (page - 1) >= 0;
  }

  /** NewFilteredBuffer: builds the selection with a counting loop. */
  method NewFilteredBuffer<L>(src: Buffer<L>, page: int, perPage: int) returns (fb: Buffer<L>)
    ensures fb == Filtered(src, PageSelection(src.Size(), page, perPage))
  {
    var s := perPage * (page - 1);
    if s > src.Size() {
      return Filtered(src, []);
    }
    var selection: seq<int> := [];
    var e := s + perPage;
    if e >= src.Size() {
      e := src.Size();
    }
    var i := s;
    while i < e
      invariant s <= i <= Max(s, e)
      invariant |selection| == i - s
      invariant forall k :: 0 <= k < |selection| ==> selection[k] == s + k
    {
      selection := selection + [i];
      i := i + 1;
    }
    assert selection == Range(s, e);
    return Filtered(src, selection);
  }

  /** A page that starts past the end of the source is empty. */
  lemma PageBeyondEnd(n: nat, page: int, perPage: int)
    requires PageStart(page, perPage) > n
    ensures PageSelection(n, page, perPage) == []
  {
  }

  /** Otherwise the page is the consecutive run from its start to the page end or the source
      end, whichever comes first, and its size is min(perPage, n - start), never negative. */
  lemma PageIsConsecutive(n: nat, page: int, perPage: int)
    requires PageStart(page, perPage) <= n
    ensures var s := PageStart(page, perPage); var r := PageSelection(n, page, perPage);
      |r| == Max(0, Min(perPage, n - s)) &&
      forall k :: 0 <= k < |r| ==> r[k] == s + k
  {
  }

  /** For a page number from 1 on and a non-negative page size, every entry indexes the source. */
  lemma PageInBounds(n: nat, page: int, perPage: int)
    requires page >= 1 && perPage >= 0
    ensures forall k :: 0 <= k < |PageSelection(n, page, perPage)| ==>
      0 <= PageSelection(n, page, perPage)[k] < n
  {
    PageStartNonNegative(page, perPage);
  }

  /** A view of the consecutive source indices [s, e) is well-formed and presents the
      source slice [s, e); its i-th lookup is the source's lookup at s + i. */
  lemma RangeShowsSlice<L>(src: Buffer<L>, s: int, e: int)
    requires src.Valid() && 0 <= s <= e <= src.Size()
    ensures Filtered(src, Range(s, e)).Valid()
    ensures Filtered(src, Range(s, e)).Contents() == src.Contents()[s..e]
  {
    var fb := Filtered(src, Range(s, e));
    assert fb.Valid();
    var c := src.Contents();
    forall k | 0 <= k < e - s
      ensures fb.Contents()[k] == c[s..e][k]
    {
    }
  }

  /** Each lookup in that view is the source's lookup at s + i. */
  lemma RangeLineAt<L>(src: Buffer<L>, s: int, e: int, i: int)
    requires src.Valid() && 0 <= s <= e <= src.Size() && 0 <= i < e - s
    ensures src.CanLookUp(s + i) && Filtered(src, Range(s, e)).CanLookUp(i)
    ensures Filtered(src, Range(s, e)).LineAt(i) == src.LineAt(s + i)
  {
    ValidLineAt(src, s + i);
  }

  /** A page over a well-formed source is well-formed and presents exactly the slice of the
      source's lines from the page start to the page end (or the source end), and each of its
      lookups is the source's lookup at start + i. */
  lemma {:induction false} PageShowsSlice<L>(src: Buffer<L>, page: int, perPage: int, i: int)
    requires src.Valid() && page >= 1 && perPage >= 0
    requires PageStart(page, perPage) <= src.Size()
    ensures var s := PageStart(page, perPage);
      var fb := Filtered(src, PageSelection(src.Size(), page, perPage));
      fb.Valid() &&
      fb.Contents() == src.Contents()[s..Min(s + perPage, src.Size())] &&
      (0 <= i < fb.Size() ==> src.CanLookUp(s + i) && fb.LineAt(i) == src.LineAt(s + i))
  {
    var s := PageStart(page, perPage);
    var e := Min(s + perPage, src.Size());
    PageStartNonNegative(page, perPage);
    assert PageSelection(src.Size(), page, perPage) == Range(s, e);
    RangeShowsSlice(src, s, e);
    if 0 <= i < e - s {
      RangeLineAt(src, s, e, i);
    }
  }

  /** A page number below 1 produces negative selection entries. */
  lemma PageZeroIsNegative(n: nat, perPage: int)
    requires perPage > 0
    ensures var r := PageSelection(n, 0, perPage); |r| > 0 && r[0] == -perPage
  {
  }
}
