/** The sorted index of Type/RingBufferSorted.hpp: a ring buffer of (key, element) pairs whose
    keys never decrease, searched by key.  */
module SortedRingBuffers {
  import opened Basics
  import opened RingBuffers

  function KeyAt<T>(history: seq<(int, T)>, index: nat): int
    requires 1 <= index <= |history|
  {
    history[index - 1].0
  }

  ghost predicate SortedByKey<T>(history: seq<(int, T)>) {
    forall i: nat, j: nat | 1 <= i <= j <= |history| :: KeyAt(history, i) <= KeyAt(history, j)
  }

  ghost predicate Holds<T>(history: seq<(int, T)>, n: nat, key: int) {
    exists i: nat :: Live(n, |history|, i) && KeyAt(history, i) == key
  }

  ghost predicate AllSmaller<T>(history: seq<(int, T)>, n: nat, key: int) {
    forall i: nat | Live(n, |history|, i) :: KeyAt(history, i) < key
  }

  ghost predicate AllLarger<T>(history: seq<(int, T)>, n: nat, key: int) {
    forall i: nat | Live(n, |history|, i) :: KeyAt(history, i) > key
  }

  /** The index that find returns. */
  ghost predicate IsFound<T>(history: seq<(int, T)>, n: nat, key: int, oldest: bool, index: nat) {
    var count := |history|;
    if count == 0 || n == 0 then index == 0
    else
      && Live(n, count, index)
      && if Holds(history, n, key) then
           && KeyAt(history, index) == key
           && forall i: nat | Live(n, count, i) && KeyAt(history, i) == key :: if oldest then index <= i else i <= index
         else if AllSmaller(history, n, key) then index == count
         else if AllLarger(history, n, key) then index == Oldest(n, count)
         else if oldest then
           && KeyAt(history, index) < key
           && forall i: nat | Live(n, count, i) && KeyAt(history, i) < key :: i <= index
         else
           && KeyAt(history, index) > key
           && forall i: nat | Live(n, count, i) && KeyAt(history, i) > key :: index <= i
  }

  /** IsFound leaves find no choice. */
  lemma {:induction false} FoundIsUnique<T>(history: seq<(int, T)>, n: nat, key: int, oldest: bool, i: nat, j: nat)
    requires IsFound(history, n, key, oldest, i) && IsFound(history, n, key, oldest, j)
    ensures i == j
  {
  }

  lemma {:induction false} SortedSnoc<T>(history: seq<(int, T)>, key: int, element: T)
    requires SortedByKey(history) && (|history| > 0 ==> key >= KeyAt(history, |history|))
    ensures SortedByKey(history + [(key, element)])
  {
    var history' := history + [(key, element)];
    forall i: nat, j: nat | 1 <= i <= j <= |history'|
      ensures KeyAt(history', i) <= KeyAt(history', j)
    {
      if i <= |history| {
        assert KeyAt(history', i) == KeyAt(history, i) <= KeyAt(history, |history|);
        if j <= |history| { assert KeyAt(history', j) == KeyAt(history, j); }
      }
    }
  }

  predicate Between(key: int, a: int, b: int) {
    a <= key <= b || b <= key <= a
  }

  /** The run lo..hi of indexes that readIntervalByKey delivers.  It starts at what find returns
      for keyBegin and goes on until the window ends or a key passes keyEnd. */
  ghost predicate KeyRun<T>(history: seq<(int, T)>, n: nat, keyBegin: int, keyEnd: int, lo: nat, hi: nat) {
    && Oldest(n, |history|) <= lo <= hi + 1 && hi <= |history|
    && if keyBegin > keyEnd then
         && (history != [] ==> IsFound(history, n, keyBegin, false, hi))
         && (history == [] ==> hi == 0)
         && (forall i: nat | lo <= i <= hi :: KeyAt(history, i) >= keyEnd)
         && (lo > Oldest(n, |history|) ==> KeyAt(history, lo - 1) < keyEnd)
       else
         && (history != [] ==> IsFound(history, n, keyBegin, true, lo))
         && (history == [] ==> lo == 1)
         && (forall i: nat | lo <= i <= hi :: KeyAt(history, i) <= keyEnd)
         && (hi < |history| ==> KeyAt(history, hi + 1) > keyEnd)
  }

  /** Every live entry whose key lies between the bounds is in the run; the run holds at most
      one other entry, the neighbour that find returns for an absent keyBegin. */
  lemma {:induction false} KeyRunCoversInterval<T>(history: seq<(int, T)>, n: nat, keyBegin: int, keyEnd: int, lo: nat, hi: nat)
    requires 0 < n && SortedByKey(history) && KeyRun(history, n, keyBegin, keyEnd, lo, hi)
    ensures forall i: nat | Live(n, |history|, i) && Between(KeyAt(history, i), keyBegin, keyEnd) :: lo <= i <= hi
    ensures forall i: nat | lo <= i <= hi && !Between(KeyAt(history, i), keyBegin, keyEnd) ::
              && i == (if keyBegin > keyEnd then hi else lo)
              && !Holds(history, n, keyBegin)
              && IsFound(history, n, keyBegin, keyBegin <= keyEnd, i)
  {
  }

  /** None of the keys of lo..end - 1 is above keyEnd. */
  ghost predicate KeysAtMost<T>(history: seq<(int, T)>, lo: nat, end: nat, keyEnd: int)
    requires 1 <= lo && end <= |history| + 1
  {
    forall i: nat | lo <= i < end :: KeyAt(history, i) <= keyEnd
  }

  lemma {:induction false} KeysGoOn<T>(history: seq<(int, T)>, lo: nat, end: nat, keyEnd: int)
    requires 1 <= lo <= end <= |history| && KeysAtMost(history, lo, end, keyEnd) && KeyAt(history, end) <= keyEnd
    ensures KeysAtMost(history, lo, end + 1, keyEnd)
  {
  }

  class RingBufferSorted<T(0)> {
    const base: RingBuffer<(int, T)>

    ghost predicate Valid()
      reads this, base, base.data
    {
      base.Valid() && SortedByKey(base.history)
    }

    constructor (n: nat)
      requires 0 < n
      ensures Valid() && fresh(base) && fresh(base.data) && base.N == n && base.history == []
    {
      base := new RingBuffer(n);
    }

    /** The code asserts that keys do not decrease. */
    method Push(key: int, element: T) returns (index: nat)
      requires Valid()
      requires |base.history| > 0 ==> key >= KeyAt(base.history, |base.history|)
      modifies base, base.data
      ensures Valid() && base.history == old(base.history) + [(key, element)]
      ensures index == |base.history|
    {
      SortedSnoc(base.history, key, element);
      index := base.Push((key, element));
    }

    method Clear()
      requires Valid()
      modifies base
      ensures Valid() && base.history == []
    {
      base.Clear();
    }

    /** Narrow the offsets from the head to one candidate: everything nearer the head than
        "index" is larger than the key, and everything from "index + 1" on is not. */
    method SearchOffset(key: int) returns (index: nat)
      requires Valid()
      ensures base.history == [] ==> index == 0
      ensures base.history != [] ==>
                && index < base.Size()
                && (index > 0 ==> KeyAt(base.history, |base.history| - index) > key)
                && (index + 1 < base.Size() ==> KeyAt(base.history, |base.history| - index - 1) <= key)
    {
      index := 0;
      var indexEnd := base.Size();
      while indexEnd > index && indexEnd - index > 1
        invariant 0 <= index <= indexEnd <= base.Size()
        invariant base.history != [] ==> index < indexEnd
        invariant index > 0 ==> KeyAt(base.history, |base.history| - index) > key
        invariant indexEnd < base.Size() ==> KeyAt(base.history, |base.history| - indexEnd) <= key
        decreases indexEnd - index
      {
        var indexMiddle := (index + indexEnd) / 2;
        var middle := base.Head(indexMiddle);
        if key >= middle.0 {
          indexEnd := indexMiddle;
        } else {
          index := indexMiddle;
        }
      }
    }

    predicate Keeps(key: int, oldest: bool, k: int) {
      if oldest then k >= key else k > key
    }

    /** Walk towards the oldest entry while the keys stay on the wanted side. */
    method WalkOlder(key: int, oldest: bool, start: nat) returns (absoluteIndex: nat, olderAbsoluteIndex: nat)
      requires Valid() && Live(base.N, |base.history|, start)
      ensures Live(base.N, |base.history|, absoluteIndex)
      ensures olderAbsoluteIndex + 1 == absoluteIndex <= start
      ensures forall i: nat | absoluteIndex <= i < start :: Keeps(key, oldest, KeyAt(base.history, i))
      ensures !base.IsIndexTooOld(olderAbsoluteIndex) ==>
                !Keeps(key, oldest, KeyAt(base.history, olderAbsoluteIndex))
    {
      absoluteIndex := start;
      olderAbsoluteIndex := absoluteIndex - 1;
      while !base.IsIndexTooOld(olderAbsoluteIndex) && Keeps(key, oldest, base.LoadForRead(olderAbsoluteIndex).0)
        invariant Live(base.N, |base.history|, absoluteIndex)
        invariant olderAbsoluteIndex + 1 == absoluteIndex <= start
        invariant forall i: nat | absoluteIndex <= i < start :: Keeps(key, oldest, KeyAt(base.history, i))
        decreases absoluteIndex
      {
        base.LoadIsHistory(olderAbsoluteIndex);
        absoluteIndex := olderAbsoluteIndex;
        olderAbsoluteIndex := olderAbsoluteIndex - 1;
      }
      if !base.IsIndexTooOld(olderAbsoluteIndex) {
        base.LoadIsHistory(olderAbsoluteIndex);
      }
    }

    method Find(key: int, oldest: bool) returns (index: nat)
      requires Valid()
      ensures IsFound(base.history, base.N, key, oldest, index)
    {
      var offset := SearchOffset(key);
      if base.Size() == 0 {
        return 0;
      }
      var newest := base.Head(0);
      if offset == 0 && newest.0 < key {
        assert AllSmaller(base.history, base.N, key);
        return base.indexRead;
      }
      var absoluteIndex, olderAbsoluteIndex := WalkOlder(key, oldest, base.indexRead - offset);
      base.LoadIsHistory(absoluteIndex);
      var older := base.LoadForRead(olderAbsoluteIndex).0;
      if !base.IsIndexTooOld(olderAbsoluteIndex) {
        base.LoadIsHistory(olderAbsoluteIndex);
      }
      var above := base.LoadForRead(absoluteIndex).0 > key && !base.IsIndexTooOld(olderAbsoluteIndex);
      index := if above && (oldest || older == key) then olderAbsoluteIndex else absoluteIndex;
      WalkFinds(base.history, base.N, key, oldest, base.indexRead - offset, absoluteIndex, index);
    }

    /** The callback receives the pairs of "delivered", one call each, in that order. */
    method ReadIntervalByKey(keyBegin: int, keyEnd: int)
      returns (delivered: seq<(int, T)>, ok: bool, ghost lo: nat, ghost hi: nat)
      requires Valid()
      ensures ok
      ensures KeyRun(base.history, base.N, keyBegin, keyEnd, lo, hi)
      ensures delivered == if keyBegin > keyEnd then Reversed(Window(base.history, lo, hi)) else Window(base.history, lo, hi)
    {
      ok := true;
      if keyBegin > keyEnd {
        var curIndex := Find(keyBegin, false);
        hi := curIndex;
        delivered, lo := ReadDescendingByKey(curIndex, keyEnd);
      } else {
        var curIndex := Find(keyBegin, true);
        lo := Max(1, curIndex);
        delivered, hi := ReadAscendingByKey(curIndex, keyEnd);
      }
    }

    method ReadDescendingByKey(start: nat, keyEnd: int) returns (delivered: seq<(int, T)>, ghost lo: nat)
      requires base.Valid() && start <= |base.history| && start + 1 >= Oldest(base.N, |base.history|)
      ensures Oldest(base.N, |base.history|) <= lo <= start + 1
      ensures delivered == Reversed(Window(base.history, lo, start))
      ensures forall i: nat | lo <= i <= start :: KeyAt(base.history, i) >= keyEnd
      ensures lo > Oldest(base.N, |base.history|) ==> KeyAt(base.history, lo - 1) < keyEnd
    {
      delivered := [];
      var curIndex := start;
      while true
        invariant 0 <= curIndex <= start && curIndex + 1 >= Oldest(base.N, |base.history|)
        invariant delivered == Reversed(Window(base.history, curIndex + 1, start))
        invariant forall i: nat | curIndex < i <= start :: KeyAt(base.history, i) >= keyEnd
        decreases curIndex
      {
        var data := base.LoadForRead(curIndex);
        if base.IsIndexTooOld(curIndex) {
          break;
        }
        base.LoadIsHistory(curIndex);
        if data.0 < keyEnd {
          break;
        }
        WindowDown(base.history, curIndex, start);
        delivered, curIndex := delivered + [data], curIndex - 1;
      }
      lo := curIndex + 1;
    }

    method ReadAscendingByKey(start: nat, keyEnd: int) returns (delivered: seq<(int, T)>, ghost hi: nat)
      requires base.Valid() && (if base.history == [] then start == 0 else Live(base.N, |base.history|, start))
      ensures var lo := Max(1, start);
              && lo <= hi + 1 <= |base.history| + 1
              && delivered == Window(base.history, lo, hi)
              && KeysAtMost(base.history, lo, hi + 1, keyEnd)
              && (hi < |base.history| ==> KeyAt(base.history, hi + 1) > keyEnd)
    {
      delivered := [];
      var curIndex := start;
      ghost var lo := Max(1, start);
      while !base.IsIndexTooNew(curIndex)
        invariant start <= curIndex <= |base.history| + 1
        invariant curIndex == 0 ==> base.history == [] && delivered == []
        invariant curIndex > 0 ==> delivered == Window(base.history, lo, curIndex - 1)
        invariant KeysAtMost(base.history, lo, curIndex, keyEnd)
        decreases |base.history| + 1 - curIndex
      {
        var data := base.LoadForRead(curIndex);
        if base.IsIndexTooOld(curIndex) {
          // One thread: only index 0 of an empty buffer comes here
          curIndex := curIndex + 1;
          continue;
        }
        base.LoadIsHistory(curIndex);
        if data.0 > keyEnd {
          break;
        }
        WindowUp(base.history, lo, curIndex);
        KeysGoOn(base.history, lo, curIndex, keyEnd);
        delivered, curIndex := delivered + [data], curIndex + 1;
      }
      hi := curIndex - 1;
    }
  }

  /** From the boundary that the walk stops at to the entry that find promises. */
  lemma {:induction false} WalkFinds<T>(history: seq<(int, T)>, n: nat, key: int, oldest: bool, start: nat, stop: nat, index: nat)
    requires 0 < n && SortedByKey(history)
    requires Live(n, |history|, start) && Live(n, |history|, stop) && stop <= start
    requires KeyAt(history, start) >= key
    requires start < |history| ==> KeyAt(history, start) > key
    requires forall i: nat | stop <= i < start :: KeyAt(history, i) >= key && (oldest || KeyAt(history, i) > key)
    requires stop > Oldest(n, |history|) ==> KeyAt(history, stop - 1) < key || (!oldest && KeyAt(history, stop - 1) == key)
    requires var above := KeyAt(history, stop) > key && stop > Oldest(n, |history|);
             index == if above && (oldest || KeyAt(history, stop - 1) == key) then stop - 1 else stop
    ensures IsFound(history, n, key, oldest, index)
  {
  }
}
