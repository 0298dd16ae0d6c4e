/** The dependent-buffers registry: the ordered list of buffers that an authoritative
    buffer notifies when it invalidates lines up to some index. */
module Registry {
  import opened Results

  /** Identity of a registered buffer; the registry compares buffers by identity only. */
  type BufferId = nat

  /** One `InvalidateUpTo(upTo)` call delivered to the buffer `target`. */
  datatype Notification = Notification(target: BufferId, upTo: int)

  /** Position of the first registered occurrence of `b`, the one the removal loop stops at. */
  function IndexOf(bs: seq<BufferId>, b: BufferId): (r: Option<nat>)
    ensures r.Some? ==> r.value < |bs| && bs[r.value] == b && b !in bs[..r.value]
    ensures r.None? ==> b !in bs
  {
    if |bs| == 0 then None
    else if bs[0] == b then Some(0)
    else match IndexOf(bs[1..], b)
      case None => None
      case Some(i) =>
        assert bs[..i + 1] == [bs[0]] + bs[1..][..i];
        Some(i + 1)
  }

  /** Removal as the code does it: a head match leaves `bs[1..]`, any other first match
      at `i` leaves `bs[..i-1] + bs[i+1..]`, which also loses `bs[i-1]`. */
  function UnregisterAsWritten(bs: seq<BufferId>, b: BufferId): (r: seq<BufferId>)
    ensures b !in bs ==> r == bs
    ensures b in bs ==> |r| == |bs| - 1 || |r| == |bs| - 2
    ensures b in bs ==> multiset(r) + multiset{b} <= multiset(bs)
  {
    match IndexOf(bs, b)
    case None => bs
    case Some(i) =>
      if i == 0 then
        assert bs == [bs[0]] + bs[1..];
        bs[1..]
      else
        assert bs == bs[..i - 1] + [bs[i - 1], bs[i]] + bs[i + 1..];
        bs[..i - 1] + bs[i + 1..]
  }

  /** Removal as intended: exactly the first match goes, every other entry stays in order. */
  function Unregistered(bs: seq<BufferId>, b: BufferId): (r: seq<BufferId>)
    ensures b !in bs ==> r == bs
    ensures b in bs ==> |r| == |bs| - 1 && multiset(r) == multiset(bs) - multiset{b}
  {
    match IndexOf(bs, b)
    case None => bs
    case Some(i) =>
      assert bs == bs[..i] + [bs[i]] + bs[i + 1..];
      bs[..i] + bs[i + 1..]
  }

  /** A first occurrence is unique: any `i` with `bs[i] == b` and no earlier `b` is IndexOf's answer. */
  lemma FirstIndexUnique(bs: seq<BufferId>, b: BufferId, i: nat)
    requires i < |bs| && bs[i] == b && b !in bs[..i]
    ensures IndexOf(bs, b) == Some(i)
  {
    assert bs[..i + 1][i] == b;
  }

  lemma UnregisterAbsent(bs: seq<BufferId>, b: BufferId)
    requires b !in bs
    ensures UnregisterAsWritten(bs, b) == bs
  {
  }

  /** Only the first match is acted on; a head match removes exactly the head. */
  lemma UnregisterFirstMatch(bs: seq<BufferId>, b: BufferId, i: nat)
    requires i < |bs| && bs[i] == b && b !in bs[..i]
    ensures i == 0 ==> UnregisterAsWritten(bs, b) == bs[1..]
    ensures i > 0 ==> UnregisterAsWritten(bs, b) == bs[..i - 1] + bs[i + 1..]
  {
    FirstIndexUnique(bs, b, i);
  }

  /** For a non-head first match, two entries disappear: the match and its predecessor. */
  lemma UnregisterDropsPredecessor(bs: seq<BufferId>, b: BufferId, i: nat)
    requires 0 < i < |bs| && bs[i] == b && b !in bs[..i]
    ensures |UnregisterAsWritten(bs, b)| == |bs| - 2
    ensures multiset(UnregisterAsWritten(bs, b)) == multiset(bs) - multiset{bs[i - 1], b}
  {
    UnregisterFirstMatch(bs, b, i);
    assert bs == bs[..i - 1] + [bs[i - 1], bs[i]] + bs[i + 1..];
  }

  /** Registering a fresh buffer and unregistering it again loses the previously last entry. */
  lemma RegisterThenUnregisterAsWritten(bs: seq<BufferId>, b: BufferId)
    requires |bs| > 0 && b !in bs
    ensures UnregisterAsWritten(bs + [b], b) == bs[..|bs| - 1]
  {
    assert (bs + [b])[..|bs|] == bs;
    UnregisterFirstMatch(bs + [b], b, |bs|);
    assert (bs + [b])[..|bs| - 1] == bs[..|bs| - 1];
  }

  /** The smallest registry that shows the difference: removing 2 from [1, 2]. */
  lemma UnregisterTailExample()
    ensures UnregisterAsWritten([1, 2], 2) == []
    ensures Unregistered([1, 2], 2) == [1]
  {
    UnregisterFirstMatch([1, 2], 2, 1);
    FirstIndexUnique([1, 2], 2, 1);
  }

  /** Intended removal keeps the order of the remaining entries: it is the registry with
      exactly the first match cut out. */
  lemma UnregisteredAt(bs: seq<BufferId>, b: BufferId, i: nat)
    requires i < |bs| && bs[i] == b && b !in bs[..i]
    ensures Unregistered(bs, b) == bs[..i] + bs[i + 1..]
  {
    FirstIndexUnique(bs, b, i);
  }

  /** Intended removal undoes a registration of a buffer that was not yet registered. */
  lemma RegisterThenUnregister(bs: seq<BufferId>, b: BufferId)
    requires b !in bs
    ensures Unregistered(bs + [b], b) == bs
  {
    assert (bs + [b])[..|bs|] == bs;
    UnregisteredAt(bs + [b], b, |bs|);
  }

  /** The registry of one buffer; the Go type is a slice updated through a pointer. */
  class DependentBuffers {
    var entries: seq<BufferId>

    constructor ()
      ensures entries == []
    {
      entries := [];
    }

    /** Appends without a duplicate check. */
    method Register(lb: BufferId)
      modifies this
      ensures entries == old(entries) + [lb]
      ensures |entries| == |old(entries)| + 1 && entries[..|old(entries)|] == old(entries)
    {
      entries := entries + [lb];
    }

    /** Scans for the first entry equal to `lb` and splices it out as the code does. */
    method Unregister(lb: BufferId)
      modifies this
      ensures entries == UnregisterAsWritten(old(entries), lb)
    {
      var i := 0;
      while i < |entries|
        invariant 0 <= i <= |entries|
        invariant entries == old(entries)
        invariant lb !in entries[..i]
      {
        if entries[i] == lb {
          UnregisterFirstMatch(entries, lb, i);
          if i == 0 {
            entries := entries[1..];
          } else if i == |entries| - 1 {
            assert entries[i + 1..] == [];
            entries := entries[..i - 1];
          } else {
            entries := entries[..i - 1] + entries[i + 1..];
          }
          return;
        }
        assert entries[..i + 1] == entries[..i] + [entries[i]];
        i := i + 1;
      }
      assert entries[..i] == entries;
      UnregisterAbsent(entries, lb);
    }

    /** Broadcasts `InvalidateUpTo(upTo)` to every registered buffer, in registration order;
        the result is the list of calls made. */
    method InvalidateUpTo(upTo: int) returns (notified: seq<Notification>)
      ensures |notified| == |entries|
      ensures forall k :: 0 <= k < |entries| ==> notified[k] == Notification(entries[k], upTo)
    {
      notified := [];
      for k := 0 to |entries|
        invariant |notified| == k
        invariant forall j :: 0 <= j < k ==> notified[j] == Notification(entries[j], upTo)
      {
        notified := notified + [Notification(entries[k], upTo)];
      }
    }
  }
}
