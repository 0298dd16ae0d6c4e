/** RawLineBuffer: an appendable store of lines with an optional capacity and a registry of
    dependent buffers. */
module RawLineBuffers {
  import opened Results
  import Registry
  import Buffers

  /** The eviction branch re-slices the lines from diff = size - capacity up to capacity;
      Go panics unless diff <= capacity. */
  predicate CanAppend(size: nat, capacity: nat)
  {
    capacity > 0 && size > capacity ==> size - capacity <= capacity
  }

  /** The lines after Append, as the code computes them: the size is checked before the new
      line is added, and the eviction branch keeps lines[diff..capacity] and drops the new line.
      Either the new line is stored behind all old lines, or fewer than capacity old lines remain
      as one contiguous run and the new line is gone. */
  function AppendAsWritten<L>(lines: seq<L>, capacity: nat, l: L): (r: seq<L>)
    requires CanAppend(|lines|, capacity)
    ensures |r| == |lines| + 1 || |r| < capacity
    ensures |r| == |lines| + 1 ==> r[..|lines|] == lines && r[|lines|] == l
    ensures |r| != |lines| + 1 ==> capacity < |lines|
    ensures |r| != |lines| + 1 ==>
      forall k :: 0 <= k < |r| ==> r[k] == lines[|lines| - capacity + k]
  {
    if capacity > 0 && |lines| > capacity then
      var diff := |lines| - capacity;
      lines[diff..capacity]
    else
      lines + [l]
  }

  /** Unbounded, or not above capacity: a plain tail append; earlier lines stay where they were. */
  lemma AppendAtTail<L>(lines: seq<L>, capacity: nat, l: L)
    requires capacity == 0 || |lines| <= capacity
    ensures var r := AppendAsWritten(lines, capacity, l);
      |r| == |lines| + 1 && r[|lines|] == l && r[..|lines|] == lines
  {
  }

  /** Above capacity: the new line is not stored, and what remains is the run of old lines
      from diff to capacity, fewer than capacity of them. */
  lemma AppendOverCapacity<L>(lines: seq<L>, capacity: nat, l: L)
    requires capacity > 0 && capacity < |lines| <= 2 * capacity
    ensures var r := AppendAsWritten(lines, capacity, l); var diff := |lines| - capacity;
      |r| == capacity - diff && |r| < capacity &&
      forall k :: 0 <= k < |r| ==> r[k] == lines[diff + k]
  {
  }

  /** At most capacity + 1 lines, the size a fixed positive capacity allows. */
  predicate Bounded(size: nat, capacity: nat)
  {
    capacity == 0 || size <= capacity + 1
  }

  /** With a capacity that does not change, the buffer stays within capacity + 1 lines, so
      the eviction slice never panics. */
  lemma AppendKeepsBounded<L>(lines: seq<L>, capacity: nat, l: L)
    requires Bounded(|lines|, capacity)
    ensures CanAppend(|lines|, capacity)
    ensures Bounded(|AppendAsWritten(lines, capacity, l)|, capacity)
  {
  }

  /** The lines after appending `items` one by one as the code does. */
  function AppendAllAsWritten<L>(lines: seq<L>, capacity: nat, items: seq<L>): (r: seq<L>)
    requires Bounded(|lines|, capacity)
    ensures Bounded(|r|, capacity)
    decreases |items|
  {
    if items == [] then lines
    else
      AppendKeepsBounded(lines, capacity, items[0]);
      AppendAllAsWritten(AppendAsWritten(lines, capacity, items[0]), capacity, items[1..])
  }

  /** Unbounded, a run of appends adds every line at the tail, in append order. */
  lemma {:induction false} AppendAllUnbounded<L>(lines: seq<L>, items: seq<L>)
    ensures AppendAllAsWritten(lines, 0, items) == lines + items
    decreases |items|
  {
    if items != [] {
      AppendAllUnbounded(lines + [items[0]], items[1..]);
      assert lines + [items[0]] + items[1..] == lines + items;
    }
  }

  /** Capacity 2, lines a, b, c: the size is checked before the append, so all three stay. */
  lemma CapacityTwoKeepsThree<L>(a: L, b: L, c: L)
    ensures AppendAllAsWritten([], 2, [a, b, c]) == [a, b, c]
  {
    assert [a, b, c][1..] == [b, c];
    assert [b, c][1..] == [c];
    assert AppendAsWritten([], 2, a) == [a];
    assert AppendAsWritten([a], 2, b) == [a, b];
    calc {
      AppendAllAsWritten([], 2, [a, b, c]);
      AppendAllAsWritten([a], 2, [b, c]);
      AppendAllAsWritten([a, b], 2, [c]);
      AppendAllAsWritten([a, b, c], 2, []);
    }
  }

  /** Capacity 1, lines a, b, c: the third append empties the buffer. */
  lemma EvictionEmptiesBuffer<L>(a: L, b: L, c: L)
    ensures AppendAllAsWritten([], 1, [a, b, c]) == []
  {
    assert [a, b, c][1..] == [b, c];
    assert [b, c][1..] == [c];
    assert AppendAsWritten([], 1, a) == [a];
    assert AppendAsWritten([a], 1, b) == [a, b];
    assert AppendAsWritten([a, b], 1, c) == [];
    calc {
      AppendAllAsWritten([], 1, [a, b, c]);
      AppendAllAsWritten([a], 1, [b, c]);
      AppendAllAsWritten([a, b], 1, [c]);
      AppendAllAsWritten([], 1, []);
    }
  }

  /** The newest `capacity` lines of `s` (all of them when capacity is 0). */
  function Newest<L>(s: seq<L>, capacity: nat): (r: seq<L>)
    ensures capacity > 0 ==> |r| == Buffers.Min(|s|, capacity)
    ensures capacity == 0 ==> r == s
    ensures r == s[|s| - |r|..]
  {
    if capacity > 0 && |s| > capacity then s[|s| - capacity..] else s
  }

  /** Append with eviction as the code sets out to do it: diff = size - capacity counts the
      oldest lines to drop, so the new line is stored and the oldest lines are dropped until at
      most `capacity` remain. */
  function AppendEvicting<L>(lines: seq<L>, capacity: nat, l: L): (r: seq<L>)
    ensures capacity == 0 ==> r == lines + [l]
    ensures capacity > 0 ==> |r| == Buffers.Min(|lines| + 1, capacity)
    ensures |r| > 0 && r[|r| - 1] == l
    ensures r == (lines + [l])[|lines| + 1 - |r|..]
  {
    Newest(lines + [l], capacity)
  }

  /** The number of lines a corrected append drops: those beyond `capacity` once the new line is in. */
  function Evicted(size: nat, capacity: nat): nat
  {
    if capacity > 0 && size + 1 > capacity then size + 1 - capacity else 0
  }

  /** The invalidation calls a corrected append makes: when it drops lines, every registered
      buffer is told, in registration order, how many were dropped; otherwise nobody is. */
  function EvictionNotices<L>(lines: seq<L>, capacity: nat, l: L, entries: seq<Registry.BufferId>)
    : (r: seq<Registry.Notification>)
    ensures var dropped := |lines| + 1 - |AppendEvicting(lines, capacity, l)|;
      dropped == 0 ==> r == []
    ensures var dropped := |lines| + 1 - |AppendEvicting(lines, capacity, l)|;
      dropped > 0 ==> (|r| == |entries| &&
        forall k :: 0 <= k < |r| ==> r[k] == Registry.Notification(entries[k], dropped))
  {
    var d := Evicted(|lines|, capacity);
    if d == 0 then [] else seq(|entries|, k requires 0 <= k < |entries| => Registry.Notification(entries[k], d))
  }

  function AppendAllEvicting<L>(lines: seq<L>, capacity: nat, items: seq<L>): seq<L>
    decreases |items|
  {
    if items == [] then lines
    else AppendAllEvicting(AppendEvicting(lines, capacity, items[0]), capacity, items[1..])
  }

  /** Taking the newest lines of a suffix that is at least that long is the same as taking
      them of the whole sequence. */
  lemma NewestOfSuffix<L>(s: seq<L>, t: seq<L>, capacity: nat)
    requires capacity > 0 && |s| > capacity
    ensures Newest(Newest(s, capacity) + t, capacity) == Newest(s + t, capacity)
  {
    var u := Newest(s, capacity) + t;
    assert u == (s + t)[|s| - capacity..];
  }

  /** One corrected append followed by keeping the newest lines of the rest is the same as
      keeping the newest lines of everything. */
  lemma NewestStep<L>(lines: seq<L>, capacity: nat, items: seq<L>)
    requires Newest(lines, capacity) == lines && items != []
    ensures var next := AppendEvicting(lines, capacity, items[0]);
      Newest(next, capacity) == next &&
      Newest(next + items[1..], capacity) == Newest(lines + items, capacity)
  {
    var m := lines + [items[0]];
    assert m + items[1..] == lines + items;
    if capacity > 0 && |m| > capacity {
      NewestOfSuffix(m, items[1..], capacity);
    }
  }

  /** After any run of appends the corrected buffer holds exactly the newest `capacity` lines
      of everything ever appended. */
  lemma {:induction false} AppendAllEvictingKeepsNewest<L>(lines: seq<L>, capacity: nat, items: seq<L>)
    requires Newest(lines, capacity) == lines
    ensures AppendAllEvicting(lines, capacity, items) == Newest(lines + items, capacity)
    decreases |items|
  {
    if items != [] {
      NewestStep(lines, capacity, items);
      AppendAllEvictingKeepsNewest(AppendEvicting(lines, capacity, items[0]), capacity, items[1..]);
    } else {
      assert lines + items == lines;
    }
  }

  /** Starting empty with capacity c > 0, after n > c appends the corrected buffer holds c lines
      and its first line is the (n - c)-th appended one (counting from 0). */
  lemma EvictingAfterManyAppends<L>(capacity: nat, items: seq<L>)
    requires 0 < capacity < |items|
    ensures |AppendAllEvicting([], capacity, items)| == capacity
    ensures AppendAllEvicting([], capacity, items)[0] == items[|items| - capacity]
  {
    AppendAllEvictingKeepsNewest([], capacity, items);
    assert [] + items == items;
  }

  /** The buffer object. Go's RawLineBuffer also embeds a cancellable pipeline stage, which
      is not part of this model. */
  class RawLineBuffer<L> {
    var lines: seq<L>
    var capacity: nat
    const buffers: Registry.DependentBuffers

    /** NewRawLineBuffer: empty, unbounded, nothing registered. */
    constructor ()
      ensures lines == [] && capacity == 0
      ensures fresh(buffers) && buffers.entries == []
    {
      lines := [];
      capacity := 0;
      buffers := new Registry.DependentBuffers();
    }

    /** Never fails: hands `l` back and stores it or evicts as AppendAsWritten says. `notified`
        lists the invalidation calls made to dependent buffers: there are none, even on eviction. */
    method Append(l: L) returns (r: Result<L>, notified: seq<Registry.Notification>)
      requires CanAppend(|lines|, capacity)
      modifies this
      ensures r == Ok(l)
      ensures notified == []
      ensures lines == AppendAsWritten(old(lines), old(capacity), l)
      ensures capacity == old(capacity)
      ensures buffers.entries == old(buffers.entries)
      ensures Bounded(|old(lines)|, capacity) ==> Bounded(|lines|, capacity)
    {
      if capacity > 0 && |lines| > capacity {
        var diff := |lines| - capacity;
        lines := lines[diff..capacity];
      } else {
        lines := lines + [l];
      }
      r := Ok(l);
      notified := [];
    }

    /** Same as Append. */
    method AppendLine(l: L) returns (r: Result<L>, notified: seq<Registry.Notification>)
      requires CanAppend(|lines|, capacity)
      modifies this
      ensures r == Ok(l)
      ensures notified == []
      ensures lines == AppendAsWritten(old(lines), old(capacity), l)
      ensures capacity == old(capacity)
      ensures buffers.entries == old(buffers.entries)
      ensures Bounded(|old(lines)|, capacity) ==> Bounded(|lines|, capacity)
    {
      r, notified := Append(l);
    }

    /** A negative capacity is clamped to 0 (unbounded); lines and registry are untouched. */
    method SetCapacity(c: int)
      modifies this
      ensures capacity == Buffers.Max(c, 0)
      ensures capacity == 0 <==> c <= 0
      ensures lines == old(lines)
      ensures buffers.entries == old(buffers.entries)
    {
      var clamped := c;
      if clamped < 0 {
        clamped := 0;
      }
      capacity := clamped;
    }

    /** The authoritative buffer ignores invalidation. */
    method InvalidateUpTo(i: int)
      ensures unchanged(this) && unchanged(buffers)
    {
    }

    method Register(lb: Registry.BufferId)
      modifies buffers
      ensures buffers.entries == old(buffers.entries) + [lb]
      ensures unchanged(this)
    {
      buffers.Register(lb);
    }

    method Unregister(lb: Registry.BufferId)
      modifies buffers
      ensures buffers.entries == Registry.UnregisterAsWritten(old(buffers.entries), lb)
      ensures unchanged(this)
    {
      buffers.Unregister(lb);
    }

    /** Lookup: the stored line exactly on [0, Size()), ErrBufferOutOfRange elsewhere. */
    function LineAt(i: int): (r: Result<L>)
      reads this
      ensures r.Ok? <==> 0 <= i < |lines|
      ensures r.Ok? ==> r.value == lines[i]
      ensures r.Err? ==> r.error == OutOfRange
    {
      Buffers.RawLineAt(lines, i)
    }

    /** The number of stored lines, which is exactly the number of valid indices. */
    function Size(): (r: nat)
      reads this
      ensures r == |lines|
      ensures forall i :: LineAt(i).Ok? <==> 0 <= i < r
    {
      |lines|
    }

    /** This buffer seen through the Buffer interface, for use as a FilteredBuffer's source. */
    function View(): (r: Buffers.Buffer<L>)
      reads this
      ensures r.Valid() && r.Size() == Size() && r.Contents() == lines
      ensures forall i :: r.CanLookUp(i) && r.LineAt(i) == LineAt(i)
    {
      Buffers.Raw(lines)
    }
  }

  /** A buffer given three lines while unbounded and then shrunk with SetCapacity(1) has left
      CanAppend: its next Append would re-slice from diff = 2 up to 1, which panics. */
  method ShrunkCapacityPanics<L>(a: L, b: L, c: L) returns (rb: RawLineBuffer<L>)
    ensures |rb.lines| == 3 && rb.capacity == 1
    ensures !CanAppend(|rb.lines|, rb.capacity)
  {
    rb := new RawLineBuffer<L>();
    var r, notified := rb.Append(a);
    r, notified := rb.Append(b);
    r, notified := rb.Append(c);
    rb.SetCapacity(1);
  }
}
