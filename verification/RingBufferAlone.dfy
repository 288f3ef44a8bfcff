/** Readers of Type/RingBuffer.hpp while the producer rests: a call ends, and an interval is delivered as one thread
    would deliver it. */
module RingBufferAlone {
  import opened Basics
  import opened RingBuffers
  import opened RingBufferReaders

  /** The producer is between two pushes. */
  ghost predicate Rests(c: Config, s: Ring) { RingInv(c, s) && s.producer == Idle }

  lemma {:induction false} TooOldMeans(c: Config, s: Ring, index: nat)
    requires Rests(c, s)
    ensures TooOld(c, index, s.indexWrite, s.indexRead) <==> index < FirstLive(c.slots, |s.history|)
  {
  }

  // ---- What is delivered -------------------------------------------------------------------------------------

  /** The moves of one call on a ring that does not change. */
  ghost predicate IsCall(c: Config, s: Ring, run: seq<Reader>) {
    && run != [] && OpenCall(run[0])
    && forall i | 0 < i < |run| :: ReaderMove(c, s, run[i - 1], run[i])
  }

  /** What the counters showed is what they still are. */
  predicate Seen(s: Ring, r: Reader) { r.seenWrite in {None, Some(s.indexWrite)} && r.seenRead in {None, Some(s.indexRead)} }

  predicate InLoop(r: Reader) { r.pc.LoopHead? || r.pc.Copying? || r.pc.Verify? }

  function Top(s: Ring, begin: nat): nat { Min(begin, |s.history|) }

  function Bottom(c: Config, s: Ring, begin: nat): nat { Max(begin, FirstLive(c.slots, |s.history|)) }

  /** Downwards, from the top on. */
  predicate GoesDown(c: Config, s: Ring, r: Reader, begin: nat, end: nat) {
    var top, first := Top(s, begin), FirstLive(c.slots, |s.history|);
    && r.query == Descend(begin, end) && Seen(s, r) && (r.pc.Start? || InLoop(r) || r.pc.Done?)
    && (forall k | 0 <= k < |r.delivered| :: r.delivered[k].0 == top - k && top - k >= first && top - k >= end)
    && (InLoop(r) ==> r.curIndex == top - |r.delivered|)
    && (r.pc.Copying? || r.pc.Verify? ==> r.curIndex >= end)
    && (r.pc.Done? ==> top - |r.delivered| < first || top - |r.delivered| < end)
  }

  /** Upwards, from the bottom on. */
  predicate GoesUp(c: Config, s: Ring, r: Reader, begin: nat, end: nat) {
    var bottom := Bottom(c, s, begin);
    && r.query == Ascend(begin, end) && Seen(s, r) && (r.pc.Start? || InLoop(r) || r.pc.Done?)
    && (forall k | 0 <= k < |r.delivered| :: r.delivered[k].0 == bottom + k && bottom + k <= |s.history| && bottom + k <= end)
    && (InLoop(r) ==> r.curIndex == bottom + |r.delivered|)
    && (r.pc.Copying? || r.pc.Verify? ==> r.curIndex <= end && r.curIndex <= |s.history|)
    && (r.pc.Done? ==> bottom + |r.delivered| > |s.history| || bottom + |r.delivered| > end)
  }

  lemma {:induction false} DownKeeps(c: Config, s: Ring, r: Reader, r': Reader, begin: nat, end: nat)
    requires Rests(c, s) && ReaderInv(c, s, r) && GoesDown(c, s, r, begin, end) && ReaderMove(c, s, r, r')
    ensures GoesDown(c, s, r', begin, end)
  {
    TooOldMeans(c, s, r.curIndex);
  }

  lemma {:induction false} UpKeeps(c: Config, s: Ring, r: Reader, r': Reader, begin: nat, end: nat)
    requires Rests(c, s) && ReaderInv(c, s, r) && GoesUp(c, s, r, begin, end) && ReaderMove(c, s, r, r')
    ensures GoesUp(c, s, r', begin, end)
  {
    if r.pc.Verify? { UpJudges(c, s, r, r', begin, end); }
  }

  lemma {:induction false} UpJudges(c: Config, s: Ring, r: Reader, r': Reader, begin: nat, end: nat)
    requires Rests(c, s) && GoesUp(c, s, r, begin, end) && r.pc.Verify?
    requires LoadMove(s, r, r') || TooOldMove(c, r, r') || DeliverMove(c, r, r')
    ensures GoesUp(c, s, r', begin, end)
  {
    TooOldMeans(c, s, r.curIndex);
  }

  lemma {:induction false} OpenHolds(c: Config, s: Ring, r: Reader)
    requires Rests(c, s) && OpenCall(r)
    ensures ReaderInv(c, s, r)
    ensures r.query.Descend? ==> GoesDown(c, s, r, r.query.begin, r.query.end)
    ensures r.query.Ascend? ==> GoesUp(c, s, r, r.query.begin, r.query.end)
  {
  }

  lemma {:induction false} CallKeeps(c: Config, s: Ring, run: seq<Reader>, i: nat)
    requires Rests(c, s) && IsCall(c, s, run) && i < |run|
    ensures ReaderInv(c, s, run[i]) && run[i].query == run[0].query
    ensures run[0].query.Descend? ==> GoesDown(c, s, run[i], run[0].query.begin, run[0].query.end)
    ensures run[0].query.Ascend? ==> GoesUp(c, s, run[i], run[0].query.begin, run[0].query.end)
  {
    OpenHolds(c, s, run[0]);
    if i > 0 {
      CallKeeps(c, s, run, i - 1);
      ReaderMoveKeeps(c, s, run[i - 1], run[i]);
      if run[0].query.Descend? { DownKeeps(c, s, run[i - 1], run[i], run[0].query.begin, run[0].query.end); }
      if run[0].query.Ascend? { UpKeeps(c, s, run[i - 1], run[i], run[0].query.begin, run[0].query.end); }
    }
  }

  function Elements(delivered: seq<(nat, Element)>): seq<Element> {
    seq(|delivered|, k requires 0 <= k < |delivered| => delivered[k].1)
  }

  lemma {:induction false} DownAt(c: Config, s: Ring, r: Reader, begin: nat, end: nat, k: nat)
    requires Rests(c, s) && GoesDown(c, s, r, begin, end) && TrueEntries(s, r) && r.pc.Done? && begin > end
    ensures var interval := Interval(s.history, c.slots, begin, end);
            (k < |r.delivered| <==> k < |interval|) && (k < |r.delivered| ==> r.delivered[k].1 == interval[k])
  {
    IntervalDown(s.history, c.slots, begin, end, k);
    if k < |r.delivered| { assert TrueEntry(s, r.delivered[k].0, r.delivered[k].1); }
  }

  lemma {:induction false} UpAt(c: Config, s: Ring, r: Reader, begin: nat, end: nat, k: nat)
    requires Rests(c, s) && GoesUp(c, s, r, begin, end) && TrueEntries(s, r) && r.pc.Done? && begin < end
    ensures var interval := Interval(s.history, c.slots, begin, end);
            (k < |r.delivered| <==> k < |interval|) && (k < |r.delivered| ==> r.delivered[k].1 == interval[k])
  {
    IntervalUp(s.history, c.slots, begin, end, k);
    if k < |r.delivered| { assert TrueEntry(s, r.delivered[k].0, r.delivered[k].1); }
  }

  lemma {:induction false} DeliversAt(c: Config, s: Ring, run: seq<Reader>, begin: nat, end: nat, k: nat)
    requires Rests(c, s) && IsCall(c, s, run) && run[|run| - 1].pc.Done? && begin != end
    requires run[0].query == if begin > end then Descend(begin, end) else Ascend(begin, end)
    ensures var delivered, interval := run[|run| - 1].delivered, Interval(s.history, c.slots, begin, end);
            (k < |delivered| <==> k < |interval|) && (k < |delivered| ==> delivered[k].1 == interval[k])
  {
    CallKeeps(c, s, run, |run| - 1);
    if begin > end { DownAt(c, s, run[|run| - 1], begin, end, k); } else { UpAt(c, s, run[|run| - 1], begin, end, k); }
  }

  /** A call of readInterval that is not disturbed delivers the interval. */
  lemma {:induction false} DeliversInterval(c: Config, s: Ring, run: seq<Reader>, begin: nat, end: nat)
    requires Rests(c, s) && IsCall(c, s, run) && run[|run| - 1].pc.Done? && begin != end
    requires run[0].query == if begin > end then Descend(begin, end) else Ascend(begin, end)
    ensures Elements(run[|run| - 1].delivered) == Interval(s.history, c.slots, begin, end)
  {
    var delivered, interval := run[|run| - 1].delivered, Interval(s.history, c.slots, begin, end);
    DeliversAt(c, s, run, begin, end, |delivered|);
    DeliversAt(c, s, run, begin, end, |interval|);
    forall k | 0 <= k < |delivered| ensures Elements(delivered)[k] == interval[k] {
      DeliversAt(c, s, run, begin, end, k);
    }
  }

  // ---- What is delivered by key ----------------------------------------------------------------------------------

  /** The key of the entry under "index" is on the wrong side of keyEnd. */
  predicate PastEnd(s: Ring, q: Query, index: nat)
    requires 1 <= index <= |s.history|
  {
    var key := KeyOf(s.history[index - 1]);
    (q.DescendByKey? && key < q.keyEnd) || (q.AscendByKey? && key > q.keyEnd)
  }

  predicate LiveAt(c: Config, s: Ring, index: int) { FirstLive(c.slots, |s.history|) <= index <= |s.history| }

  /** Where a read by key that starts at "start" delivers first: upwards, what is too old is passed over. */
  function Begin(c: Config, s: Ring, q: Query, start: nat): nat {
    if q.Down() then start else Max(start, FirstLive(c.slots, |s.history|))
  }

  function Ith(c: Config, s: Ring, q: Query, start: nat, k: nat): int {
    if q.Down() then Begin(c, s, q, start) - k else Begin(c, s, q, start) + k
  }

  /** A run of live entries from where the search has led to, none past keyEnd; it ends only where the next one is
      not live, or past keyEnd. */
  predicate GoesByKey(c: Config, s: Ring, r: Reader, start: nat) {
    && (r.query.DescendByKey? || r.query.AscendByKey?) && Seen(s, r) && (InLoop(r) || r.pc.Done?)
    && (forall k | 0 <= k < |r.delivered| ::
          var index := Ith(c, s, r.query, start, k);
          r.delivered[k].0 == index && LiveAt(c, s, index) && !PastEnd(s, r.query, index))
    && (InLoop(r) ==> r.curIndex == Ith(c, s, r.query, start, |r.delivered|)
                      || (r.query.AscendByKey? && r.delivered == [] && start <= r.curIndex < Begin(c, s, r.query, start)))
    && (r.pc.Copying? || r.pc.Verify? ==> r.curIndex <= |s.history|)
    && (r.pc.Done? ==>
          var index := Ith(c, s, r.query, start, |r.delivered|);
          !LiveAt(c, s, index) || PastEnd(s, r.query, index))
  }

  lemma {:induction false} ByKeyKeeps(c: Config, s: Ring, r: Reader, r': Reader, start: nat)
    requires Rests(c, s) && ReaderInv(c, s, r) && GoesByKey(c, s, r, start) && ReaderMove(c, s, r, r')
    ensures GoesByKey(c, s, r', start)
  {
    if r.pc.Verify? { ByKeyJudges(c, s, r, r', start); }
  }

  lemma {:induction false} ByKeyJudges(c: Config, s: Ring, r: Reader, r': Reader, start: nat)
    requires Rests(c, s) && ReaderInv(c, s, r) && GoesByKey(c, s, r, start) && r.pc.Verify?
    requires LoadMove(s, r, r') || TooOldMove(c, r, r') || DeliverMove(c, r, r')
    ensures GoesByKey(c, s, r', start)
  {
    TooOldMeans(c, s, r.curIndex);
    if DeliverMove(c, r, r') { assert TrueEntry(s, r.curIndex, r.pc.buf); }
  }

  lemma {:induction false} ByKeyBegins(c: Config, s: Ring, r: Reader, start: nat)
    requires Rests(c, s) && r == At(r, start) && r.delivered == [] && (r.query.DescendByKey? || r.query.AscendByKey?)
    ensures GoesByKey(c, s, r, start)
  {
  }

  /** A call of readIntervalByKey that is not disturbed delivers, from where its search has led to, all entries up to
      the first that is past keyEnd or the end of what is live. */
  lemma {:induction false} DeliversKeyRun(c: Config, s: Ring, run: seq<Reader>, start: nat, i: nat)
    requires Rests(c, s) && run != [] && i < |run|
    requires ReaderInv(c, s, run[0]) && run[0] == At(run[0], start) && run[0].delivered == []
    requires run[0].query.DescendByKey? || run[0].query.AscendByKey?
    requires forall j | 0 < j < |run| :: ReaderMove(c, s, run[j - 1], run[j])
    ensures ReaderInv(c, s, run[i]) && GoesByKey(c, s, run[i], start)
  {
    if i == 0 {
      ByKeyBegins(c, s, run[0], start);
    } else {
      DeliversKeyRun(c, s, run, start, i - 1);
      ReaderMoveKeeps(c, s, run[i - 1], run[i]);
      ByKeyKeeps(c, s, run[i - 1], run[i], start);
    }
  }

  // ---- That a call ends ------------------------------------------------------------------------------------

  /** The words that are not copied yet. */
  function Uncopied(c: Config, copied: map<nat, int>): set<nat> { set k: nat | k < c.words && k !in copied }

  /** How many indexes a reader can still visit. */
  function Ahead(s: Ring, r: Reader): nat {
    if Early(r) then |s.history| + 2
    else if r.query.Down() then r.curIndex + 1
    else if r.curIndex <= |s.history| then |s.history| + 1 - r.curIndex else 0
  }

  function Phase(r: Reader): nat {
    match r.pc
    case Start => 8
    case FindSearch(_, _) => 7
    case FindEmpty(_) => 6
    case FindHead(_) => 5
    case FindAbsolute(_) => 4
    case FindWalk(_, _) => 3
    case LoopHead => 3
    case Copying(_) => 2
    case Verify(_) => 1
    case Done => 0
  }

  function Left(c: Config, r: Reader): nat {
    match r.pc
    case FindSearch(index, indexEnd) => if indexEnd > index then indexEnd - index else 0
    case Copying(copied) => |Uncopied(c, copied)|
    case _ => (if r.seenWrite == None then 1 else 0) + (if r.seenRead == None then 1 else 0)
  }

  predicate Nearer(c: Config, s: Ring, r: Reader, r': Reader) {
    || Ahead(s, r') < Ahead(s, r)
    || (Ahead(s, r') == Ahead(s, r) && (Phase(r') < Phase(r) || (Phase(r') == Phase(r) && Left(c, r') < Left(c, r))))
  }

  lemma {:induction false} WordIsCopied(c: Config, s: Ring, r: Reader, k: nat) returns (r': Reader)
    requires RingInv(c, s) && ReaderInv(c, s, r) && r.pc.Copying? && k in Uncopied(c, r.pc.copied)
    ensures CopyMove(c, s, r, r') && r'.pc.Copying? && r' == r.(pc := r'.pc) && Left(c, r') < Left(c, r)
  {
    r' := r.(pc := Copying(r.pc.copied[k := s.data[r.curIndex % c.slots][k]]));
    assert CopyWord(c, s, r, r', k);
    assert Uncopied(c, r.pc.copied) == Uncopied(c, r'.pc.copied) + {k};
  }

  lemma {:induction false} CopyingAdvances(c: Config, s: Ring, r: Reader) returns (r': Reader)
    requires RingInv(c, s) && ReaderInv(c, s, r) && r.pc.Copying?
    ensures ReaderMove(c, s, r, r') && Nearer(c, s, r, r')
  {
    var copied := r.pc.copied;
    if k :| k in Uncopied(c, copied) {
      r' := WordIsCopied(c, s, r, k);
    } else {
      forall k: nat | k < c.words ensures k in copied { assert k !in Uncopied(c, copied); }
      r' := r.(pc := Verify(seq(c.words, k => if k in copied then copied[k] else 0)));
      assert AllCopied(c, r, r');
    }
  }

  lemma {:induction false} VerifyAdvances(c: Config, s: Ring, r: Reader) returns (r': Reader)
    requires RingInv(c, s) && ReaderInv(c, s, r) && r.pc.Verify?
    ensures ReaderMove(c, s, r, r') && Nearer(c, s, r, r')
  {
    if r.seenWrite == None {
      r' := r.(seenWrite := Some(s.indexWrite));
    } else if r.seenRead == None {
      r' := r.(seenRead := Some(s.indexRead));
    } else if TooOld(c, r.curIndex, r.seenWrite.value, r.seenRead.value) {
      r' := if r.query.Down() || r.delivered != [] then r.(pc := Done) else At(r, r.curIndex + 1);
    } else if PastKeyEnd(r.query, KeyOf(r.pc.buf)) {
      r' := r.(pc := Done);
    } else {
      var out := r.(delivered := r.delivered + [(r.curIndex, r.pc.buf)]);
      r' := if r.query.Down() then At(out, r.curIndex - 1) else At(out, r.curIndex + 1);
    }
  }

  lemma {:induction false} StartAdvances(c: Config, s: Ring, r: Reader) returns (r': Reader)
    requires RingInv(c, s) && ReaderInv(c, s, r) && r.pc.Start?
    ensures ReaderMove(c, s, r, r') && Nearer(c, s, r, r')
  {
    match r.query
    case Descend(begin, _) => r' := At(r, Min(begin, s.indexRead));
    case Ascend(begin, _) =>
      if r.seenWrite == None {
        r' := r.(seenWrite := Some(s.indexWrite));
      } else if r.seenRead == None {
        r' := r.(seenRead := Some(s.indexRead));
      } else {
        var size := Min(c.slots, r.seenRead.value);
        r' := if size > r.seenWrite.value + 1 then r.(pc := Done) else At(r, Max(begin, r.seenWrite.value + 1 - size));
      }
    case _ => r' := r.(pc := FindSearch(0, Min(c.slots, s.indexRead)));
  }

  lemma {:induction false} FindAdvances(c: Config, s: Ring, r: Reader) returns (r': Reader)
    requires RingInv(c, s) && ReaderInv(c, s, r) && Early(r) && !r.pc.Start?
    ensures ReaderMove(c, s, r, r') && Nearer(c, s, r, r')
  {
    match r.pc
    case FindSearch(index, indexEnd) =>
      r' := r.(pc := if indexEnd > index && indexEnd - index > 1 then FindSearch(index, (index + indexEnd) / 2) else FindEmpty(index));
    case FindEmpty(index) => r' := if s.indexRead == 0 then At(r, 0) else r.(pc := FindHead(index));
    case FindHead(index) => r' := r.(pc := FindAbsolute(index));
    case FindAbsolute(index) => r' := r.(pc := FindWalk(s.indexRead - index, s.indexRead - index));
    case FindWalk(absoluteIndex, _) => r' := At(r, absoluteIndex);
    assert FindMove(c, s, r, r');
  }

  /** A reader that has not finished can always take a move that brings it nearer to its end, whatever the producer
      is doing. */
  lemma {:induction false} ReaderAdvances(c: Config, s: Ring, r: Reader) returns (r': Reader)
    requires RingInv(c, s) && ReaderInv(c, s, r) && !r.pc.Done?
    ensures ReaderMove(c, s, r, r') && Nearer(c, s, r, r')
  {
    match r.pc
    case Start => r' := StartAdvances(c, s, r);
    case LoopHead =>
      var more := match r.query
        case Descend(_, end) => r.curIndex >= end
        case Ascend(_, end) => r.curIndex <= end && r.curIndex <= s.indexRead
        case DescendByKey(_) => true
        case AscendByKey(_) => r.curIndex <= s.indexRead;
      r' := r.(pc := if more then Copying(map[]) else Done);
    case Copying(_) => r' := CopyingAdvances(c, s, r);
    case Verify(_) => r' := VerifyAdvances(c, s, r);
    case _ => r' := FindAdvances(c, s, r);
  }

  /** So any call can end while the producer pauses. */
  lemma {:induction false} CallEnds(c: Config, s: Ring, before: seq<Reader>) returns (run: seq<Reader>)
    requires RingInv(c, s) && IsCall(c, s, before) && ReaderInv(c, s, before[|before| - 1])
    ensures IsCall(c, s, run) && before <= run && run[|run| - 1].pc.Done?
    decreases Ahead(s, before[|before| - 1]), Phase(before[|before| - 1]), Left(c, before[|before| - 1])
  {
    var r := before[|before| - 1];
    if r.pc.Done? {
      run := before;
    } else {
      var r' := ReaderAdvances(c, s, r);
      ReaderMoveKeeps(c, s, r, r');
      run := CallEnds(c, s, before + [r']);
    }
  }

  // ---- A push ------------------------------------------------------------------------------------------------

  ghost predicate ArePushes(c: Config, run: seq<Ring>) {
    run != [] && forall i | 0 < i < |run| :: ProducerMove(c, run[i - 1], run[i])
  }

  /** The words from "k" on are stored one after the other. */
  lemma {:induction false} WordsAreStored(c: Config, s: Ring, k: nat) returns (run: seq<Ring>)
    requires RingInv(c, s) && s.producer.Writing? && k <= c.words && forall j: nat | j < k :: j in s.producer.done
    ensures ArePushes(c, run) && run[0] == s && RingInv(c, run[|run| - 1])
    ensures var last := run[|run| - 1];
            && last.history == s.history && last.indexRead == s.indexRead
            && last.producer.Writing? && forall j: nat | j < c.words :: j in last.producer.done
    decreases c.words - k
  {
    if k == c.words {
      run := [s];
    } else {
      var slot, e := s.indexWrite % c.slots, s.history[|s.history| - 1];
      var s1 := s.(data := s.data[slot := s.data[slot][k := e[k]]], producer := Writing(s.producer.done + {k}));
      assert StoreWord(c, s, s1, k);
      StoreWordKeeps(c, s, s1, k);
      var rest := WordsAreStored(c, s1, k + 1);
      run := [s] + rest;
      forall i | 0 < i < |run| ensures ProducerMove(c, run[i - 1], run[i]) {
        if i > 1 { assert ProducerMove(c, rest[i - 2], rest[i - 1]); }
      }
    }
  }

  /** A push can come to its end by itself, and its element is the next entry. */
  lemma {:induction false} PushEnds(c: Config, s: Ring, e: Element) returns (run: seq<Ring>)
    requires Rests(c, s) && |e| == c.words
    ensures ArePushes(c, run) && run[0] == s
    ensures var last := run[|run| - 1]; Rests(c, last) && last.history == s.history + [e] && last.indexRead == |last.history|
  {
    var s1 := s.(indexWrite := s.indexWrite + 1, producer := Writing({}), history := s.history + [e]);
    assert Reserve(c, s, s1, e);
    ReserveKeeps(c, s, s1, e);
    var stores := WordsAreStored(c, s1, 0);
    var s2 := stores[|stores| - 1];
    var s3 := s2.(indexRead := s2.indexRead + 1, producer := RingBufferReaders.Idle);
    assert Publish(c, s2, s3);
    PublishKeeps(c, s2, s3);
    run := [s] + stores + [s3];
    forall i | 0 < i < |run| ensures ProducerMove(c, run[i - 1], run[i]) {
      if 1 < i < |run| - 1 { assert ProducerMove(c, stores[i - 2], stores[i - 1]); }
    }
  }
}
