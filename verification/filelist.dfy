/**
  The outline of the package: a singly linked list of record segments. The
  header names the first entry; every entry names the next; a link that is
  zero or negative ends the list. GetFileList follows the links from the
  header's FirstItemIndex and collects the entries in the order it meets
  them.
 */
module FileList {
  import opened Wrappers
  import opened Binary
  import opened Record

  /** How a walk along the links ends. */
  datatype Outcome = Completed | RanOff | Cycled

  /** The segment numbers of a list of entries, in order. */
  function Indices(rs: seq<IndexRecord>): (ks: seq<Int32>)
    ensures |ks| == |rs|
    ensures forall i :: 0 <= i < |rs| ==> ks[i] == rs[i].index
  {
    seq(|rs|, i requires 0 <= i < |rs| => rs[i].index)
  }

  /** Every segment number in ks is positive and its segment lies inside the buffer. */
  predicate AllFit(buf: seq<Byte>, ks: seq<Int32>)
  {
    forall i :: 0 <= i < |ks| ==> ks[i] >= 1 && SegmentFits(buf, ks[i])
  }

  /**
    ks is a walk along the links from `first`: it starts at `first` and each
    segment number is the link stored in the segment before it.
   */
  ghost predicate IsWalk(buf: seq<Byte>, first: Int32, ks: seq<Int32>)
  {
    && AllFit(buf, ks)
    && (|ks| > 0 ==> ks[0] == first)
    && (forall i :: 0 <= i < |ks| - 1 ==> ks[i + 1] == NextItemAt(buf, ks[i]))
  }

  /** The cursor once the walk ks has been read: the link of its last segment. */
  function Pending(buf: seq<Byte>, first: Int32, ks: seq<Int32>): int
    requires AllFit(buf, ks)
  {
    if ks == [] then first else NextItemAt(buf, ks[|ks| - 1])
  }

  predicate Distinct(ks: seq<Int32>)
  {
    forall i, j :: 0 <= i < j < |ks| ==> ks[i] != ks[j]
  }

  /**
    The walk ks, without repeats, ends in the given way: the next link is not
    positive (the list is complete), points at a segment past the end of the
    buffer, or points back at a segment already read.
   */
  ghost predicate Ends(buf: seq<Byte>, first: Int32, ks: seq<Int32>, o: Outcome)
  {
    && IsWalk(buf, first, ks)
    && Distinct(ks)
    && match o
       case Completed => Pending(buf, first, ks) <= 0
       case RanOff => Pending(buf, first, ks) > 0 && !SegmentFits(buf, Pending(buf, first, ks))
       case Cycled => Pending(buf, first, ks) in ks
  }

  /** The records of the segments ks, in order. */
  ghost function Entries(buf: seq<Byte>, ks: seq<Int32>): seq<IndexRecord>
    requires AllFit(buf, ks)
  {
    seq(|ks|, i requires 0 <= i < |ks| => RecordAt(buf, ks[i]))
  }

  /** Reading one more segment appends its record. */
  lemma EntriesStep(buf: seq<Byte>, ks: seq<Int32>, k: Int32)
    requires AllFit(buf, ks) && k >= 1 && SegmentFits(buf, k)
    ensures AllFit(buf, ks + [k])
    ensures Entries(buf, ks + [k]) == Entries(buf, ks) + [RecordAt(buf, k)]
  {
  }

  /**
    GetFileList: starting at `first`, read the entry of the cursor's segment
    and move the cursor to the entry's NextItemIndex, while the cursor is
    positive. The original loop has no guard against a link pointing back;
    here a repeated segment number stops the walk with CyclicList. On success
    the entries are exactly the records of the walk's segments, in walk order.
   */
  method GetFileList(buf: seq<Byte>, first: Int32) returns (r: Result<seq<IndexRecord>>, trail: seq<Int32>)
    ensures r.Success? ==> Ends(buf, first, trail, Completed) && r.value == Entries(buf, trail)
    ensures r.Success? ==> Indices(r.value) == trail
    ensures r.Failure? ==>
      || (r.error == BufferTooShort && Ends(buf, first, trail, RanOff))
      || (r.error == CyclicList && Ends(buf, first, trail, Cycled))
  {
    var cursor := first;
    var records: seq<IndexRecord> := [];
    var seen: set<int> := {};
    trail := [];
    while cursor > 0
      invariant IsWalk(buf, first, trail) && Distinct(trail)
      invariant cursor == Pending(buf, first, trail)
      invariant records == Entries(buf, trail)
      invariant forall k :: k in seen <==> k in trail
      invariant forall k :: k in seen ==> 1 <= k <= |buf|
      decreases |buf| - |seen|
    {
      if cursor in seen {
        return Failure(CyclicList), trail;
      }
      var record := ReadEntry(buf, cursor);
      if record.Failure? {
        return Failure(record.error), trail;
      }
      BoundedSetSize(seen + {cursor}, |buf|);
      WalkStep(buf, first, trail, cursor);
      EntriesStep(buf, trail, cursor);
      records := records + [record.value];
      trail := trail + [cursor];
      seen := seen + {cursor};
      cursor := record.value.head.nextItemIndex;
    }
    EntriesIndices(buf, trail);
    r := Success(records);
  }

  /** The entries of the segments ks carry the segment numbers ks. */
  lemma EntriesIndices(buf: seq<Byte>, ks: seq<Int32>)
    requires AllFit(buf, ks)
    ensures Indices(Entries(buf, ks)) == ks
  {
    assert forall i :: 0 <= i < |ks| ==> Entries(buf, ks)[i].index == ks[i];
  }

  /**
    One loop iteration's read: DecodeRecord behind a method, so that the
    loop sees only the record layout and never unfolds the field reads.
   */
  method ReadEntry(buf: seq<Byte>, k: Int32) returns (r: Result<IndexRecord>)
    requires k > 0
    ensures r.Success? <==> SegmentFits(buf, k)
    ensures r.Failure? ==> r.error == BufferTooShort
    ensures r.Success? ==> r.value == RecordAt(buf, k) && r.value.head.nextItemIndex == NextItemAt(buf, k)
  {
    r := DecodeRecord(buf, k);
  }

  /** Reading the pending segment extends the walk by one step. */
  lemma WalkStep(buf: seq<Byte>, first: Int32, ks: seq<Int32>, k: Int32)
    requires IsWalk(buf, first, ks) && Distinct(ks) && k == Pending(buf, first, ks)
    requires k >= 1 && SegmentFits(buf, k) && k !in ks
    ensures IsWalk(buf, first, ks + [k]) && Distinct(ks + [k])
    ensures Pending(buf, first, ks + [k]) == NextItemAt(buf, k)
    ensures (ks + [k])[..|ks|] == ks
  {
  }

  /** A set of numbers drawn from 1..n has at most n elements. */
  lemma {:induction false} BoundedSetSize(s: set<int>, n: nat)
    requires forall k :: k in s ==> 1 <= k <= n
    ensures |s| <= n
    decreases n
  {
    if n == 0 {
      assert s == {} by {
        forall k | k in s ensures false { }
      }
    } else {
      BoundedSetSize(s - {n}, n - 1);
    }
  }

  /** Two walks from the same start agree on their common length. */
  lemma {:induction false} WalksAgree(buf: seq<Byte>, first: Int32, ks1: seq<Int32>, ks2: seq<Int32>)
    requires IsWalk(buf, first, ks1) && IsWalk(buf, first, ks2) && |ks1| <= |ks2|
    ensures ks1 == ks2[..|ks1|]
    decreases |ks1|
  {
    if |ks1| > 1 {
      var n := |ks1| - 1;
      WalksAgree(buf, first, ks1[..n], ks2);
      assert ks1[n] == NextItemAt(buf, ks1[n - 1]) == NextItemAt(buf, ks2[n - 1]) == ks2[n];
    }
  }

  /**
    The walk from `first` and the way it ends are determined by the buffer:
    two endings of walks from the same start are the same walk ending the
    same way. So GetFileList's result is a function of the buffer and the
    start, and the three failure descriptions exclude one another.
   */
  lemma WalkDeterministic(buf: seq<Byte>, first: Int32, ks1: seq<Int32>, o1: Outcome, ks2: seq<Int32>, o2: Outcome)
    requires Ends(buf, first, ks1, o1) && Ends(buf, first, ks2, o2)
    ensures ks1 == ks2 && o1 == o2
  {
    if |ks1| < |ks2| {
      LongerWalkTakesPending(buf, first, ks1, ks2);
      assert false;
    } else if |ks2| < |ks1| {
      LongerWalkTakesPending(buf, first, ks2, ks1);
      assert false;
    } else {
      WalksAgree(buf, first, ks1, ks2);
    }
  }

  /**
    A longer walk without repeats continues a shorter one through its pending
    link, which is therefore positive, inside the buffer and not yet visited.
   */
  lemma LongerWalkTakesPending(buf: seq<Byte>, first: Int32, ks1: seq<Int32>, ks2: seq<Int32>)
    requires IsWalk(buf, first, ks1) && IsWalk(buf, first, ks2) && Distinct(ks2) && |ks1| < |ks2|
    ensures ks2[|ks1|] == Pending(buf, first, ks1) && Pending(buf, first, ks1) !in ks1
  {
    WalksAgree(buf, first, ks1, ks2);
    var n := |ks1|;
    if n > 0 {
      assert ks1[n - 1] == ks2[n - 1];
    }
    forall i | 0 <= i < n ensures ks1[i] != ks2[n] {
      assert ks1[i] == ks2[i];
    }
  }

  // ---------------------------------------------------------------------
  // The loop as written, without the guard against revisiting a segment

  /** Where the unguarded loop stands after a bounded number of iterations. */
  datatype Run = Finished(ks: seq<Int32>) | Crashed(ks: seq<Int32>) | Running

  /**
    The original loop: while the cursor is positive, read its segment (a
    read past the end of the buffer crashes) and move to its link. `fuel`
    bounds the number of segments read; a loop still going after that many
    is Running.
   */
  function FollowLinks(buf: seq<Byte>, cursor: Int32, fuel: nat): Run
    decreases fuel
  {
    if cursor <= 0 then Finished([])
    else if !SegmentFits(buf, cursor) then Crashed([])
    else if fuel == 0 then Running
    else match FollowLinks(buf, NextItemAt(buf, cursor), fuel - 1)
      case Finished(ks) => Finished([cursor] + ks)
      case Crashed(ks) => Crashed([cursor] + ks)
      case Running => Running
  }

  /** Dropping the first segment of a walk leaves a walk from its link. */
  lemma WalkTail(buf: seq<Byte>, first: Int32, ks: seq<Int32>)
    requires IsWalk(buf, first, ks) && |ks| > 0
    ensures IsWalk(buf, NextItemAt(buf, ks[0]), ks[1..])
    ensures |ks| > 1 ==> Pending(buf, NextItemAt(buf, ks[0]), ks[1..]) == Pending(buf, first, ks)
  {
  }

  /**
    On a list that ends, completely or by running off the buffer, the loop
    as written and GetFileList agree: given enough iterations the unguarded
    loop reads exactly the walk's segments and stops the same way.
   */
  lemma {:induction false} FollowLinksOnEndedWalk(buf: seq<Byte>, first: Int32, ks: seq<Int32>, o: Outcome, fuel: nat)
    requires Ends(buf, first, ks, o) && o != Cycled && fuel >= |ks|
    ensures FollowLinks(buf, first, fuel) == if o == Completed then Finished(ks) else Crashed(ks)
    decreases |ks|
  {
    if ks != [] {
      var next := NextItemAt(buf, ks[0]);
      WalkTail(buf, first, ks);
      assert Ends(buf, next, ks[1..], o);
      FollowLinksOnEndedWalk(buf, next, ks[1..], o, fuel - 1);
      assert [ks[0]] + ks[1..] == ks;
    }
  }

  /**
    On a list whose links come back to a segment already read, the loop as
    written never stops: whatever the number of iterations, it is still
    Running. (GetFileList reports CyclicList instead.)
   */
  lemma CycleNeverFinishes(buf: seq<Byte>, first: Int32, ks: seq<Int32>, fuel: nat)
    requires Ends(buf, first, ks, Cycled)
    ensures FollowLinks(buf, first, fuel) == Running
  {
    assert ks[0] == first;
    CycleStaysRunning(buf, first, ks, 0, fuel);
  }

  lemma {:induction false} CycleStaysRunning(buf: seq<Byte>, first: Int32, ks: seq<Int32>, j: nat, fuel: nat)
    requires Ends(buf, first, ks, Cycled) && j < |ks|
    ensures FollowLinks(buf, ks[j], fuel) == Running
    decreases fuel
  {
    if fuel > 0 {
      var next := NextItemAt(buf, ks[j]);
      if j + 1 < |ks| {
        assert next == ks[j + 1];
        CycleStaysRunning(buf, first, ks, j + 1, fuel - 1);
      } else {
        var k :| 0 <= k < |ks| && ks[k] == next;
        CycleStaysRunning(buf, first, ks, k, fuel - 1);
      }
    }
  }

  /**
    The smallest such list: FirstItemIndex 1 and segment 1 linking to
    itself. GetFileList ends it as a cycle after one entry; the loop as
    written never ends.
   */
  lemma SelfLinkedSegment(buf: seq<Byte>, fuel: nat)
    requires SegmentFits(buf, 1) && NextItemAt(buf, 1) == 1
    ensures Ends(buf, 1, [1], Cycled)
    ensures FollowLinks(buf, 1, fuel) == Running
  {
    CycleNeverFinishes(buf, 1, [1], fuel);
  }
}
