/** The circular array of Type/RingBuffer.hpp, run by one thread.

    Every push is numbered from 1 and stored in the slot "number % N".  The class keeps, as a
    ghost, the unbounded history of all pushes since the last clear; what the readers return is
    stated in terms of that history.  */
module RingBuffers {
  import opened Basics
  import opened Modular

  /** The least index still stored after "count" pushes into "n" slots ("count + 1" when empty). */
  function Oldest(n: nat, count: nat): nat {
    count - Min(n, count) + 1
  }

  predicate Live(n: nat, count: nat, index: nat) {
    Oldest(n, count) <= index <= count
  }

  /** Entries lo..hi (both included) of a history numbered from 1. */
  function Window<T>(history: seq<T>, lo: nat, hi: nat): seq<T>
    requires 1 <= lo && hi <= |history|
  {
    if lo <= hi then history[lo - 1..hi] else []
  }

  /** The live entries among the indexes lo..hi, in index order. */
  function LiveWindow<T>(history: seq<T>, n: nat, lo: nat, hi: nat): seq<T> {
    Window(history, Max(lo, Oldest(n, |history|)), Min(hi, |history|))
  }

  function Reversed<T>(s: seq<T>): (r: seq<T>)
    ensures |r| == |s| && forall i :: 0 <= i < |s| ==> r[i] == s[|s| - 1 - i]
  {
    seq(|s|, i requires 0 <= i < |s| => s[|s| - 1 - i])
  }

  lemma {:induction false} WindowDown<T>(history: seq<T>, index: nat, hi: nat)
    requires 1 <= index <= hi <= |history|
    ensures Reversed(Window(history, index, hi)) == Reversed(Window(history, index + 1, hi)) + [history[index - 1]]
  {
  }

  lemma {:induction false} WindowUp<T>(history: seq<T>, lo: nat, index: nat)
    requires 1 <= lo <= index <= |history|
    ensures Window(history, lo, index) == Window(history, lo, index - 1) + [history[index - 1]]
  {
  }

  /** What readInterval hands to its callback, in call order. */
  function Interval<T>(history: seq<T>, n: nat, begin: nat, end: nat): seq<T> {
    if begin > end then Reversed(LiveWindow(history, n, end, begin))
    else if begin < end then LiveWindow(history, n, begin, end)
    else []
  }

  function Distance(a: nat, b: nat): nat { if a < b then b - a else a - b }

  /** What readInterval returns: it counts the callbacks against "|begin - end|", although the
      bounds are inclusive. */
  predicate IntervalFlag<T>(history: seq<T>, n: nat, begin: nat, end: nat) {
    begin == end || |Interval(history, n, begin, end)| == Distance(begin, end)
  }

  /** An interval that ends at the newest entry is a suffix of the history, reversed. */
  lemma {:induction false} LastEntries<T>(history: seq<T>, n: nat, end: nat)
    requires end <= |history|
    ensures var k := if end == |history| then 0 else Min(|history| - end + 1, Min(n, |history|));
            Interval(history, n, |history|, end) == Reversed(history[|history| - k..])
  {
    if end < |history| {
      var lo := Max(end, Oldest(n, |history|));
      assert Window(history, lo, |history|) == history[|history| - (|history| - lo + 1)..];
    }
  }

  /** The last "k" entries, newest first. */
  function Last<T>(history: seq<T>, k: nat): seq<T>
    requires k <= |history|
  {
    Reversed(history[|history| - k..])
  }

  /** How many entries read(nbEntries) delivers. */
  function ReadCount(n: nat, count: nat, nbEntries: nat): (k: nat)
    ensures k <= count
  {
    if nbEntries == 0 then 0 else Min(nbEntries + 1, Min(n, count))
  }

  /** "Get the last n entries" is what it does exactly when nothing is asked for, or at least all that is live. */
  lemma {:induction false} ReadExactly<T>(history: seq<T>, n: nat, nbEntries: nat)
    ensures var live := Min(n, |history|);
            Last(history, ReadCount(n, |history|, nbEntries)) == Last(history, Min(nbEntries, live))
            <==> nbEntries == 0 || nbEntries >= live
  {
    var live := Min(n, |history|);
    assert |Last(history, ReadCount(n, |history|, nbEntries))| == ReadCount(n, |history|, nbEntries);
    assert |Last(history, Min(nbEntries, live))| == Min(nbEntries, live);
  }

  /** Of three live entries, the last one asked for: two are delivered, and the flag says failure. */
  lemma {:induction false} ReadExample()
    ensures Last(['a', 'b', 'c'], ReadCount(4, 3, 1)) == ['c', 'b'] != Last(['a', 'b', 'c'], 1)
    ensures !IntervalFlag(['a', 'b', 'c'], 4, 3, 2)
  {
    assert ['a', 'b', 'c'][1..3] == ['b', 'c'] && ['a', 'b', 'c'][1..] == ['b', 'c'];
    assert |Last(['a', 'b', 'c'], 1)| == 1;
  }

  /** The oldest of the last "n" entries, which are live. */
  function FirstLive(n: nat, count: nat): nat { if n < count then count - n + 1 else 1 }

  lemma {:induction false} WindowAt<T>(history: seq<T>, lo: nat, hi: nat, k: nat)
    requires 1 <= lo && hi <= |history|
    ensures |Window(history, lo, hi)| == if lo <= hi then hi - lo + 1 else 0
    ensures k < |Window(history, lo, hi)| ==> Window(history, lo, hi)[k] == history[lo + k - 1]
  {
  }

  lemma {:induction false} IntervalIsWindow<T>(history: seq<T>, n: nat, begin: nat, end: nat)
    requires begin != end
    ensures Interval(history, n, begin, end) ==
            if begin > end then Reversed(Window(history, Max(end, FirstLive(n, |history|)), Min(begin, |history|)))
            else Window(history, Max(begin, FirstLive(n, |history|)), Min(end, |history|))
  {
    assert Oldest(n, |history|) == FirstLive(n, |history|);
  }

  /** Entry by entry: indexes count from 1, and a read delivers the live ones between its bounds, both included,
      downwards if "begin" is above "end" ... */
  lemma {:induction false} IntervalDown<T>(history: seq<T>, n: nat, begin: nat, end: nat, k: nat)
    requires begin > end
    ensures var delivered, index := Interval(history, n, begin, end), Min(begin, |history|) - k;
            && (k < |delivered| <==> index >= FirstLive(n, |history|) && index >= end)
            && (k < |delivered| ==> delivered[k] == history[index - 1])
  {
    var lo, hi := Max(end, FirstLive(n, |history|)), Min(begin, |history|);
    var window := Window(history, lo, hi);
    IntervalIsWindow(history, n, begin, end);
    WindowAt(history, lo, hi, if k < |window| then |window| - 1 - k else 0);
  }

  /** ... and upwards if it is below. */
  lemma {:induction false} IntervalUp<T>(history: seq<T>, n: nat, begin: nat, end: nat, k: nat)
    requires begin < end
    ensures var delivered, index := Interval(history, n, begin, end), Max(begin, FirstLive(n, |history|)) + k;
            && (k < |delivered| <==> index <= |history| && index <= end)
            && (k < |delivered| ==> delivered[k] == history[index - 1])
  {
    IntervalIsWindow(history, n, begin, end);
    WindowAt(history, Max(begin, FirstLive(n, |history|)), Min(end, |history|), k);
  }

  /** How many of the indexes lo..hi are live. */
  function LiveCount(n: nat, count: nat, lo: nat, hi: nat): nat {
    var first, last := Max(lo, Oldest(n, count)), Min(hi, count);
    if first <= last then last - first + 1 else 0
  }

  /** The documentation promises "false in case some data requested where not processed, true if
      everything has been processed".  The code keeps that promise exactly when the bounds differ
      and at least two of the requested indexes lie outside the live window. */
  lemma {:induction false} IntervalFlagHonest<T>(history: seq<T>, n: nat, begin: nat, end: nat)
    ensures var requested := Distance(begin, end) + 1;
            var live := LiveCount(n, |history|, Min(begin, end), Max(begin, end));
            (IntervalFlag(history, n, begin, end) <==> |Interval(history, n, begin, end)| == requested)
            <==> begin != end && requested - live >= 2
  {
  }

  /** A live interval of two entries: both are delivered and the call reports failure; with one
      index missing it reports success. */
  lemma {:induction false} IntervalFlagCounterexample()
    ensures Interval(['a', 'b', 'c'], 4, 1, 2) == ['a', 'b'] && !IntervalFlag(['a', 'b', 'c'], 4, 1, 2)
    ensures Interval(['a', 'b', 'c'], 4, 0, 2) == ['a', 'b'] && IntervalFlag(['a', 'b', 'c'], 4, 0, 2)
  {
    assert ['a', 'b', 'c'][0..2] == ['a', 'b'];
  }

  /** Every live entry sits in the slot of its index. */
  ghost predicate Stored<T>(slots: seq<T>, n: nat, history: seq<T>) {
    && 0 < n == |slots|
    && forall i: nat {:trigger Live(n, |history|, i)} | Live(n, |history|, i) :: slots[i % n] == history[i - 1]
  }

  /** Writing entry "count + 1" into its slot only loses the entry that leaves the window. */
  lemma {:induction false} StoreNext<T>(slots: seq<T>, n: nat, history: seq<T>, element: T)
    requires Stored(slots, n, history)
    ensures Stored(slots[(|history| + 1) % n := element], n, history + [element])
  {
    var next := |history| + 1;
    var slots' := slots[next % n := element];
    forall i: nat | Live(n, next, i)
      ensures slots'[i % n] == (history + [element])[i - 1]
    {
      if i < next {
        ModDistinct(i, next, n);
        assert Live(n, |history|, i);
      }
    }
  }

  /** "m_indexRead - index", which wraps at 64 bits. */
  function HeadIndex(count: nat, index: nat): nat {
    if index <= count then count - index else (count - index) % 0x1_0000_0000_0000_0000
  }

  class RingBuffer<T(0)> {
    const N: nat
    const data: array<T>
    var indexWrite: nat
    var indexRead: nat
    ghost var history: seq<T>

    ghost predicate Valid()
      reads this, data
    {
      && 0 < N == data.Length
      && indexWrite == indexRead == |history|
      && Stored(data[..], N, history)
    }

    constructor (n: nat)
      requires 0 < n
      ensures Valid() && fresh(data) && N == n && history == []
    {
      N := n;
      data := new T[n];
      indexWrite, indexRead := 0, 0;
      history := [];
    }

    function LoadForRead(index: nat): T
      requires Valid()
      reads this, data
    {
      data[index % N]
    }

    function Size(): (size: nat)
      requires Valid()
      reads this, data
      ensures size == Min(N, |history|)
    {
      Min(N, indexRead)
    }

    predicate IsIndexTooNew(index: nat)
      reads this
    {
      index > indexRead
    }

    /** "m_indexWrite - size()" cannot wrap: the buffer never holds more than was reserved. */
    predicate IsIndexTooOld(index: nat)
      requires Valid()
      reads this, data
    {
      index <= indexWrite - Size()
    }

    lemma {:induction false} LoadIsHistory(index: nat)
      requires Valid() && Live(N, |history|, index)
      ensures LoadForRead(index) == history[index - 1]
    {
    }

    /** A slot holds the newest entry among those that share it. */
    lemma {:induction false} SlotIsNewest(index: nat)
      requires Valid() && index <= |history| && (index > 0 || N <= |history|)
      ensures LoadForRead(index) == history[|history| - 1 - (|history| - index) % N]
    {
      var q := (|history| - index) / N;
      var newest := |history| - (|history| - index) % N;
      assert newest == index + N * q;
      AddMultiple(index, N, q);
      LoadIsHistory(newest);
    }

    /** 0 is the last entry pushed, 1 the one before it; offsets beyond the live entries start over. The
        subtraction wraps for an offset above the counter. */
    method Head(index: nat) returns (element: T)
      requires Valid()
      ensures index < Min(N, |history|) ==> element == history[|history| - 1 - index]
      ensures index < |history| || (index == |history| && N <= |history|) ==>
                element == history[|history| - 1 - index % N]
      ensures element == LoadForRead(HeadIndex(|history|, index))
    {
      element := LoadForRead(HeadIndex(indexRead, index));
      if index < |history| || (index == |history| && N <= |history|) {
        SlotIsNewest(|history| - index);
      }
      if index < Min(N, |history|) {
        LoadIsHistory(|history| - index);
      }
    }

    /** 0 is the oldest live entry; offsets beyond the live entries start over once the buffer is full.
        One thread: the retry loop makes a single pass. */
    method Tail(index: nat) returns (element: T)
      requires Valid()
      ensures index < Min(N, |history|) ==> element == history[Oldest(N, |history|) - 1 + index]
      ensures N <= |history| ==> element == history[|history| - N + index % N]
      ensures |history| < N && 1 <= (1 + index) % N <= |history| ==> element == history[(1 + index) % N - 1]
      ensures element == LoadForRead(if |history| < N then 1 + index else |history| + 1 + index)
    {
      var curIndex := indexRead;
      element := if curIndex < N then LoadForRead(1 + index) else LoadForRead(curIndex + 1 + index);
      if curIndex >= N {
        TailStartsOver(index);
      } else if 1 <= (1 + index) % N <= |history| {
        LoadIsHistory((1 + index) % N);
        DivModUnique((1 + index) % N, N, 0, (1 + index) % N);
      }
      if index < Min(N, |history|) {
        TailIsLive(index);
      }
    }

    lemma {:induction false} TailStartsOver(index: nat)
      requires Valid() && N <= |history|
      ensures LoadForRead(|history| + 1 + index) == history[|history| - N + index % N]
    {
      var i, q := |history| - N + 1 + index % N, 1 + index / N;
      assert |history| + 1 + index == i + N * q by { assert N * q == N + N * (index / N); }
      AddMultiple(i, N, q);
      LoadIsHistory(i);
    }

    lemma {:induction false} TailIsLive(index: nat)
      requires Valid() && index < Min(N, |history|)
      ensures |history| < N ==> (1 + index) % N == 1 + index || (1 + index == N && |history| == N)
      ensures index % N == index
    {
      DivModUnique(index, N, 0, index);
      if 1 + index < N { DivModUnique(1 + index, N, 0, 1 + index); }
    }

    method Clear()
      requires Valid()
      modifies this
      ensures Valid() && history == []
    {
      indexRead := 0;
      indexWrite := 0;
      history := [];
    }

    method Push(element: T) returns (index: nat)
      requires Valid()
      modifies this, data
      ensures Valid() && history == old(history) + [element]
      ensures index == |history|
    {
      // Reserve
      var curIndex := indexWrite;
      indexWrite := curIndex + 1;
      // Store
      StoreNext(data[..], N, history, element);
      data[(curIndex + 1) % N] := element;
      assert data[..] == old(data[..])[(curIndex + 1) % N := element];
      // Publish
      indexRead := indexRead + 1;
      history := history + [element];
      index := curIndex + 1;
    }

    /** The callback receives the elements of "delivered", one call each, in that order. */
    method ReadInterval(begin: nat, end: nat) returns (delivered: seq<T>, ok: bool)
      requires Valid()
      ensures delivered == Interval(history, N, begin, end)
      ensures ok == IntervalFlag(history, N, begin, end)
    {
      if begin > end {
        delivered := ReadDescending(begin, end);
        return delivered, |delivered| == begin - end;
      } else if begin < end {
        delivered := ReadAscending(begin, end);
        return delivered, |delivered| == end - begin;
      }
      return [], true;
    }

    method ReadDescending(begin: nat, end: nat) returns (delivered: seq<T>)
      requires Valid() && begin > end
      ensures delivered == Reversed(LiveWindow(history, N, end, begin))
    {
      delivered := [];
      var hi := Min(begin, indexRead);
      var curIndex := hi;
      while curIndex >= end
        invariant 0 <= curIndex <= hi
        invariant delivered == [] || curIndex + 1 >= Max(end, Oldest(N, |history|))
        invariant delivered == Reversed(Window(history, curIndex + 1, hi))
      {
        var element := LoadForRead(curIndex);
        // Index 0 is always too old, so the counter does not pass below it
        if IsIndexTooOld(curIndex) {
          break;
        }
        LoadIsHistory(curIndex);
        WindowDown(history, curIndex, hi);
        delivered, curIndex := delivered + [element], curIndex - 1;
      }
    }

    method ReadAscending(begin: nat, end: nat) returns (delivered: seq<T>)
      requires Valid() && begin < end
      ensures delivered == LiveWindow(history, N, begin, end)
    {
      delivered := [];
      var lo := Max(begin, indexWrite - Size() + 1);
      var curIndex := lo;
      while curIndex <= end && !IsIndexTooNew(curIndex)
        invariant lo <= curIndex
        invariant curIndex == lo || curIndex <= Min(end, |history|) + 1
        invariant curIndex == lo ==> delivered == []
        invariant curIndex > lo ==> delivered == Window(history, lo, curIndex - 1)
      {
        var element := LoadForRead(curIndex);
        // One thread: nothing turns old while it is read
        assert !IsIndexTooOld(curIndex);
        LoadIsHistory(curIndex);
        WindowUp(history, lo, curIndex);
        delivered, curIndex := delivered + [element], curIndex + 1;
      }
    }

    /** "Get the last n entries": it delivers one more when that many are live, and nothing for 0. */
    method Read(nbEntries: nat) returns (delivered: seq<T>, ok: bool)
      requires Valid()
      ensures delivered == Last(history, ReadCount(N, |history|, nbEntries))
      ensures ok == IntervalFlag(history, N, |history|, if nbEntries > |history| then 0 else |history| - nbEntries)
      ensures nbEntries == N ==> ok
    {
      var headIndex := indexRead;
      var end := if nbEntries > headIndex then 0 else headIndex - nbEntries;
      delivered, ok := ReadInterval(headIndex, end);
      LastEntries(history, N, end);
    }
  }
}
