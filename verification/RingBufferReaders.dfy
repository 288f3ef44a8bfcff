/** One producer and any number of readers on the ring buffer of Type/RingBuffer.hpp, as steps.

    Each atomic load, each store of one word of an element and each copy of one word is a step of
    its own, in any order, so a reader's copy of a slot can be torn by the producer at any point.  The keyed reads
    of Type/RingBufferSorted.hpp are included: the key is the first word of an element, and the
    comparisons that "find" makes on possibly torn keys may come out either way.  */
module RingBufferReaders {
  import opened Basics
  import opened Modular
  import opened RingBuffers

  type Element = seq<int>

  function KeyOf(e: Element): int { if e == [] then 0 else e[0] }

  /** The number of slots, and the number of words of an element. */
  datatype Config = Config(slots: nat, words: nat)

  datatype Producer = Idle | Writing(done: set<nat>)

  datatype Query =
    | Descend(begin: nat, end: nat)
    | Ascend(begin: nat, end: nat)
    | DescendByKey(keyEnd: int)
    | AscendByKey(keyEnd: int)
  {
    predicate Down() { Descend? || DescendByKey? }
  }

  datatype Pc =
    | Start
    | FindSearch(index: nat, indexEnd: nat)
    | FindEmpty(index: nat)
    | FindHead(index: nat)
    | FindAbsolute(index: nat)
    | FindWalk(absoluteIndex: nat, olderAbsoluteIndex: nat)
    | LoopHead
    | Copying(copied: map<nat, int>)
    | Verify(buf: Element)
    | Done

  /** A call in progress: "seenWrite" and "seenRead" are the two loads of the too-old test. */
  datatype Reader = Reader(
    query: Query, pc: Pc, curIndex: nat,
    seenWrite: Option<nat>, seenRead: Option<nat>,
    delivered: seq<(nat, Element)>)

  /** "history" lists the elements in the order in which their indexes were reserved. */
  datatype Ring = Ring(
    indexWrite: nat, indexRead: nat, data: seq<Element>,
    producer: Producer, history: seq<Element>)

  datatype State = State(ring: Ring, readers: map<nat, Reader>)

  predicate Init(c: Config, s: State) {
    && s.ring.indexWrite == s.ring.indexRead == 0 && s.ring.history == []
    && |s.ring.data| == c.slots > 0
    && (forall e | e in s.ring.data :: |e| == c.words)
    && s.ring.producer == Idle && s.readers == map[]
  }

  // ---- Producer ---------------------------------------------------------------

  predicate Reserve(c: Config, s: Ring, s': Ring, e: Element) {
    && s.producer == Idle && |e| == c.words
    && s' == s.(indexWrite := s.indexWrite + 1, producer := Writing({}), history := s.history + [e])
  }

  predicate StoreWord(c: Config, s: Ring, s': Ring, k: nat) {
    && s.producer.Writing? && k < c.words
    && s.history != [] && c.slots > 0
    && var slot := s.indexWrite % c.slots;
       && slot < |s.data| && k < |s.data[slot]| && k < |s.history[|s.history| - 1]|
       && s' == s.(data := s.data[slot := s.data[slot][k := s.history[|s.history| - 1][k]]],
                   producer := Writing(s.producer.done + {k}))
  }

  predicate Publish(c: Config, s: Ring, s': Ring) {
    && s.producer.Writing? && (forall k: nat | k < c.words :: k in s.producer.done)
    && s' == s.(indexRead := s.indexRead + 1, producer := Idle)
  }

  // ---- Readers ----------------------------------------------------------------

  /** "index <= m_indexWrite - size()" on the two values loaded.  When the producer ran between the
      loads, the subtraction can go below zero; it then wraps to a value above every index. */
  predicate TooOld(c: Config, index: nat, write: nat, read: nat) {
    var size := Min(c.slots, read);
    size > write || index <= write - size
  }

  predicate OpenCall(r: Reader) {
    r.pc == Start && r.curIndex == 0 && r.seenWrite == r.seenRead == None && r.delivered == []
  }

  predicate LoadCounter(s: Ring, r: Reader, r': Reader) {
    || (r.seenWrite == None && r' == r.(seenWrite := Some(s.indexWrite)))
    || (r.seenRead == None && r' == r.(seenRead := Some(s.indexRead)))
  }

  function At(r: Reader, index: nat): Reader {
    r.(pc := LoopHead, curIndex := index, seenWrite := None, seenRead := None)
  }

  /** Where a call starts: min(indexBegin, m_indexRead), or
      max(indexBegin, m_indexWrite - size() + 1) with the two counters loaded one after the other,
      or the first step of find. */
  predicate StartMove(c: Config, s: Ring, r: Reader, r': Reader) {
    r.pc == Start
    && match r.query
       case Descend(begin, _) => r' == At(r, Min(begin, s.indexRead))
       case Ascend(begin, _) =>
         if r.seenWrite == None || r.seenRead == None then LoadCounter(s, r, r')
         else
           var size := Min(c.slots, r.seenRead.value);
           if size > r.seenWrite.value + 1 then r' == r.(pc := Done)  // wrapped: above indexEnd
           else r' == At(r, Max(begin, r.seenWrite.value + 1 - size))
       case DescendByKey(_) => r' == r.(pc := FindSearch(0, Min(c.slots, s.indexRead)))
       case AscendByKey(_) => r' == r.(pc := FindSearch(0, Min(c.slots, s.indexRead)))
  }

  /** find, with the outcome of every key comparison left open. */
  ghost predicate FindMove(c: Config, s: Ring, r: Reader, r': Reader) {
    match r.pc
    case FindSearch(index, indexEnd) =>
      if indexEnd > index && indexEnd - index > 1 then
        var middle := (index + indexEnd) / 2;
        r' == r.(pc := FindSearch(index, middle)) || r' == r.(pc := FindSearch(middle, indexEnd))
      else r' == r.(pc := FindEmpty(index))
    case FindEmpty(index) =>
      if s.indexRead == 0 then r' == At(r, 0) else r' == r.(pc := FindHead(index))
    case FindHead(index) =>
      (index == 0 && r' == At(r, s.indexRead)) || r' == r.(pc := FindAbsolute(index))
    case FindAbsolute(index) =>
      s.indexRead >= index && r' == r.(pc := FindWalk(s.indexRead - index, s.indexRead - index))
    case FindWalk(absoluteIndex, olderAbsoluteIndex) =>
      && olderAbsoluteIndex >= 1
      && var older := olderAbsoluteIndex - 1;
         || (exists w: nat, n: nat :: !TooOld(c, older, w, n) && r' == r.(pc := FindWalk(older, older)))
         || (exists w: nat, n: nat :: !TooOld(c, older, w, n) && r' == At(r, older))
         || r' == At(r, absoluteIndex)
    case _ => false
  }

  predicate LoopMove(s: Ring, r: Reader, r': Reader) {
    r.pc == LoopHead
    && var more := match r.query
         case Descend(_, end) => r.curIndex >= end
         case Ascend(_, end) => r.curIndex <= end && r.curIndex <= s.indexRead
         case DescendByKey(_) => true
         case AscendByKey(_) => r.curIndex <= s.indexRead;
       r' == r.(pc := if more then Copying(map[]) else Done)
  }

  predicate CopyWord(c: Config, s: Ring, r: Reader, r': Reader, k: nat) {
    && r.pc.Copying? && k < c.words && c.slots > 0
    && var slot := r.curIndex % c.slots;
       && slot < |s.data| && k < |s.data[slot]|
       && r' == r.(pc := Copying(r.pc.copied[k := s.data[slot][k]]))
  }

  predicate AllCopied(c: Config, r: Reader, r': Reader) {
    && r.pc.Copying? && r'.pc.Verify? && r' == r.(pc := r'.pc)
    && |r'.pc.buf| == c.words
    && forall k | 0 <= k < c.words :: k in r.pc.copied && r'.pc.buf[k] == r.pc.copied[k]
  }

  ghost predicate CopyMove(c: Config, s: Ring, r: Reader, r': Reader) {
    (exists k :: CopyWord(c, s, r, r', k)) || AllCopied(c, r, r')
  }

  predicate LoadMove(s: Ring, r: Reader, r': Reader) {
    r.pc.Verify? && LoadCounter(s, r, r')
  }

  predicate Judged(r: Reader) {
    r.pc.Verify? && r.seenWrite.Some? && r.seenRead.Some?
  }

  predicate TooOldMove(c: Config, r: Reader, r': Reader) {
    && Judged(r) && TooOld(c, r.curIndex, r.seenWrite.value, r.seenRead.value)
    && r' == if r.query.Down() || r.delivered != [] then r.(pc := Done) else At(r, r.curIndex + 1)
  }

  predicate PastKeyEnd(q: Query, key: int) {
    match q
    case DescendByKey(keyEnd) => key < keyEnd
    case AscendByKey(keyEnd) => key > keyEnd
    case _ => false
  }

  predicate DeliverMove(c: Config, r: Reader, r': Reader) {
    && Judged(r) && !TooOld(c, r.curIndex, r.seenWrite.value, r.seenRead.value)
    && if PastKeyEnd(r.query, KeyOf(r.pc.buf)) then r' == r.(pc := Done)
       else
         var out := r.(delivered := r.delivered + [(r.curIndex, r.pc.buf)]);
         if r.query.Down() then r.curIndex >= 1 && r' == At(out, r.curIndex - 1)
         else r' == At(out, r.curIndex + 1)
  }

  ghost predicate ReaderMove(c: Config, s: Ring, r: Reader, r': Reader) {
    || StartMove(c, s, r, r')
    || FindMove(c, s, r, r')
    || LoopMove(s, r, r')
    || CopyMove(c, s, r, r')
    || LoadMove(s, r, r')
    || TooOldMove(c, r, r')
    || DeliverMove(c, r, r')
  }

  ghost predicate ProducerMove(c: Config, s: Ring, s': Ring) {
    (exists e :: Reserve(c, s, s', e)) || (exists k :: StoreWord(c, s, s', k)) || Publish(c, s, s')
  }

  ghost predicate Next(c: Config, s: State, s': State) {
    || (ProducerMove(c, s.ring, s'.ring) && s' == s.(ring := s'.ring))
    || (exists id: nat, r :: id !in s.readers && OpenCall(r) && s' == s.(readers := s.readers[id := r]))
    || (exists id: nat, r :: id in s.readers && ReaderMove(c, s.ring, s.readers[id], r) && s' == s.(readers := s.readers[id := r]))
  }

  ghost predicate Run(c: Config, run: seq<State>) {
    && run != [] && Init(c, run[0])
    && forall i | 0 < i < |run| :: Next(c, run[i - 1], run[i])
  }

  // ---- Invariant ----------------------------------------------------------------

  /** Entry "index" was published and no later push has reserved its slot. */
  predicate Intact(c: Config, s: Ring, index: nat) {
    1 <= index <= s.indexRead && s.indexWrite < index + c.slots
  }

  ghost predicate RingInv(c: Config, s: Ring) {
    && c.slots > 0 && |s.data| == c.slots
    && |s.history| == s.indexWrite >= s.indexRead
    && (forall j | 0 <= j < |s.data| :: |s.data[j]| == c.words)
    && (forall j | 0 <= j < |s.history| :: |s.history[j]| == c.words)
    && (forall i: nat {:trigger Intact(c, s, i)} | Intact(c, s, i) :: s.data[i % c.slots] == s.history[i - 1])
    && match s.producer
       case Idle => s.indexWrite == s.indexRead
       case Writing(done) =>
         && s.indexWrite == s.indexRead + 1
         && forall k | k in done :: k < c.words && s.data[s.indexWrite % c.slots][k] == s.history[s.indexWrite - 1][k]
  }

  predicate TrueEntry(s: Ring, index: nat, e: Element) {
    1 <= index <= s.indexRead && index <= |s.history| && e == s.history[index - 1]
  }

  /** What was handed to the callback is what was pushed under that index. */
  predicate TrueEntries(s: Ring, r: Reader) {
    forall k | 0 <= k < |r.delivered| :: TrueEntry(s, r.delivered[k].0, r.delivered[k].1)
  }

  predicate Follows(q: Query, i: nat, j: nat) {
    if q.Down() then j + 1 == i else j == i + 1
  }

  /** The indexes of one call follow each other without a gap. */
  predicate Consecutive(r: Reader) {
    forall k | 0 < k < |r.delivered| :: Follows(r.query, r.delivered[k - 1].0, r.delivered[k].0)
  }

  predicate WithinKeyEnd(r: Reader) {
    forall k | 0 <= k < |r.delivered| :: !PastKeyEnd(r.query, KeyOf(r.delivered[k].1))
  }

  predicate CursorInv(s: Ring, r: Reader) {
    && (r.delivered != [] ==> Follows(r.query, r.delivered[|r.delivered| - 1].0, r.curIndex))
    && (r.query.Down() || r.pc.Copying? || r.pc.Verify? ==> r.curIndex <= s.indexRead)
  }

  predicate Agrees(copied: map<nat, int>, e: Element) {
    forall k | k in copied :: k < |e| && copied[k] == e[k]
  }

  /** As long as the slot is intact, what was copied so far is right; and it is right for good once
      the write counter has been loaded and did not show the slot reserved again. */
  predicate CopyInv(c: Config, s: Ring, r: Reader) {
    match r.pc
    case Copying(copied) =>
      && r.seenWrite == r.seenRead == None
      && (Intact(c, s, r.curIndex) ==> r.curIndex <= |s.history| && Agrees(copied, s.history[r.curIndex - 1]))
    case Verify(buf) =>
      && |buf| == c.words
      && (r.seenWrite == None && Intact(c, s, r.curIndex) ==> TrueEntry(s, r.curIndex, buf))
      && (r.seenWrite.Some? && 1 <= r.curIndex && r.seenWrite.value < r.curIndex + c.slots ==>
            TrueEntry(s, r.curIndex, buf))
    case _ => true
  }

  /** find only holds offsets and indexes that do not go below zero or above what is published. */
  predicate FindInv(s: Ring, r: Reader) {
    match r.pc
    case FindSearch(index, indexEnd) => index <= indexEnd <= s.indexRead && (indexEnd > 0 ==> index < indexEnd)
    case FindEmpty(index) => index <= s.indexRead && (s.indexRead > 0 ==> index < s.indexRead)
    case FindHead(index) => index < s.indexRead
    case FindAbsolute(index) => index < s.indexRead
    case FindWalk(absoluteIndex, olderAbsoluteIndex) => 1 <= olderAbsoluteIndex == absoluteIndex <= s.indexRead
    case _ => true
  }

  predicate Early(r: Reader) {
    !(r.pc.LoopHead? || r.pc.Copying? || r.pc.Verify? || r.pc.Done?)
  }

  predicate ReaderInv(c: Config, s: Ring, r: Reader) {
    && TrueEntries(s, r) && Consecutive(r) && WithinKeyEnd(r)
    && (Early(r) ==> r.delivered == [] && r.curIndex == 0)
    && (r.pc.LoopHead? ==> r.seenWrite == r.seenRead == None)
    && (r.pc != Done ==> CursorInv(s, r))
    && CopyInv(c, s, r)
    && FindInv(s, r)
  }

  ghost predicate Inv(c: Config, s: State) {
    RingInv(c, s.ring) && forall id | id in s.readers :: ReaderInv(c, s.ring, s.readers[id])
  }

  // ---- Producer moves keep the invariant -----------------------------------------------

  lemma {:induction false} ReserveKeeps(c: Config, s: Ring, s': Ring, e: Element)
    requires RingInv(c, s) && Reserve(c, s, s', e)
    ensures RingInv(c, s')
  {
    forall i: nat | Intact(c, s', i)
      ensures s'.data[i % c.slots] == s'.history[i - 1]
    {
      assert Intact(c, s, i);
    }
  }

  /** The word goes to a slot that holds no intact entry. */
  lemma {:induction false} StoreWordKeeps(c: Config, s: Ring, s': Ring, k: nat)
    requires RingInv(c, s) && StoreWord(c, s, s', k)
    ensures RingInv(c, s')
  {
    forall i: nat | Intact(c, s', i)
      ensures s'.data[i % c.slots] == s'.history[i - 1]
    {
      assert Intact(c, s, i);
      ModDistinct(i, s.indexWrite, c.slots);
    }
  }

  lemma {:induction false} PublishKeeps(c: Config, s: Ring, s': Ring)
    requires RingInv(c, s) && Publish(c, s, s')
    ensures RingInv(c, s')
  {
    forall i: nat | Intact(c, s', i)
      ensures s'.data[i % c.slots] == s'.history[i - 1]
    {
      if i <= s.indexRead {
        assert Intact(c, s, i);
      } else {
        assert i == s.indexWrite;
        assert forall k | 0 <= k < c.words :: k in s.producer.done && s.data[i % c.slots][k] == s.history[i - 1][k];
      }
    }
  }

  lemma {:induction false} ProducerKeepsRing(c: Config, s: Ring, s': Ring)
    requires RingInv(c, s) && ProducerMove(c, s, s')
    ensures RingInv(c, s')
  {
    if e :| Reserve(c, s, s', e) {
      ReserveKeeps(c, s, s', e);
    } else if k :| StoreWord(c, s, s', k) {
      StoreWordKeeps(c, s, s', k);
    } else {
      PublishKeeps(c, s, s');
    }
  }

  /** The producer only extends the history and never makes a reserved slot intact again. */
  lemma {:induction false} ProducerKeepsReader(c: Config, s: Ring, s': Ring, r: Reader)
    requires RingInv(c, s) && ReaderInv(c, s, r) && ProducerMove(c, s, s')
    ensures ReaderInv(c, s', r)
  {
    assert s.history <= s'.history && s.indexRead <= s'.indexRead && s.indexWrite <= s'.indexWrite;
    assert r.curIndex <= s.indexRead && Intact(c, s', r.curIndex) ==> Intact(c, s, r.curIndex);
  }

  // ---- Reader moves keep the invariant -------------------------------------------------

  lemma {:induction false} StartMoveKeeps(c: Config, s: Ring, r: Reader, r': Reader)
    requires RingInv(c, s) && ReaderInv(c, s, r) && StartMove(c, s, r, r')
    ensures ReaderInv(c, s, r')
  {
  }

  /** Before the first copy nothing has been delivered. */
  lemma {:induction false} NothingDelivered(c: Config, s: Ring, r: Reader)
    requires r.delivered == [] && FindInv(s, r) && r.curIndex <= s.indexRead
    requires if r.pc.LoopHead? then r.seenWrite == r.seenRead == None else Early(r) && r.curIndex == 0
    ensures ReaderInv(c, s, r)
  {
  }

  lemma {:induction false} FindMoveKeeps(c: Config, s: Ring, r: Reader, r': Reader)
    requires RingInv(c, s) && ReaderInv(c, s, r) && FindMove(c, s, r, r')
    ensures ReaderInv(c, s, r')
  {
    assert r'.delivered == [] && r'.curIndex <= s.indexRead;
    assert FindInv(s, r');
    NothingDelivered(c, s, r');
  }

  lemma {:induction false} LoopMoveKeeps(c: Config, s: Ring, r: Reader, r': Reader)
    requires RingInv(c, s) && ReaderInv(c, s, r) && LoopMove(s, r, r')
    ensures ReaderInv(c, s, r')
  {
  }

  lemma {:induction false} CopyMoveKeeps(c: Config, s: Ring, r: Reader, r': Reader)
    requires RingInv(c, s) && ReaderInv(c, s, r) && CopyMove(c, s, r, r')
    ensures ReaderInv(c, s, r')
  {
    if Intact(c, s, r.curIndex) {
      var e := s.history[r.curIndex - 1];
      assert s.data[r.curIndex % c.slots] == e;
      if AllCopied(c, r, r') { assert r'.pc.buf == e; }
    }
  }

  lemma {:induction false} LoadMoveKeeps(c: Config, s: Ring, r: Reader, r': Reader)
    requires RingInv(c, s) && ReaderInv(c, s, r) && LoadMove(s, r, r')
    ensures ReaderInv(c, s, r')
  {
    assert r.curIndex <= s.indexRead;
  }

  lemma {:induction false} TooOldMoveKeeps(c: Config, s: Ring, r: Reader, r': Reader)
    requires RingInv(c, s) && ReaderInv(c, s, r) && TooOldMove(c, r, r')
    ensures ReaderInv(c, s, r')
  {
  }

  /** The heart of the matter: an element is delivered only if its slot had not been reserved again
      when the write counter was loaded, after the copy. */
  lemma {:induction false} DeliverMoveKeeps(c: Config, s: Ring, r: Reader, r': Reader)
    requires RingInv(c, s) && ReaderInv(c, s, r) && DeliverMove(c, r, r')
    ensures ReaderInv(c, s, r')
  {
    assert 1 <= r.curIndex && r.seenWrite.value < r.curIndex + c.slots;
    assert TrueEntry(s, r.curIndex, r.pc.buf);
    if r'.pc.LoopHead? {
      assert r'.delivered == r.delivered + [(r.curIndex, r.pc.buf)];
      assert TrueEntries(s, r') && Consecutive(r') && WithinKeyEnd(r');
    } else {
      assert r' == r.(pc := Done);
    }
  }

  lemma {:induction false} ReaderMoveKeeps(c: Config, s: Ring, r: Reader, r': Reader)
    requires RingInv(c, s) && ReaderInv(c, s, r) && ReaderMove(c, s, r, r')
    ensures ReaderInv(c, s, r')
  {
    if StartMove(c, s, r, r') {
      StartMoveKeeps(c, s, r, r');
    } else if FindMove(c, s, r, r') {
      FindMoveKeeps(c, s, r, r');
    } else if LoopMove(s, r, r') {
      LoopMoveKeeps(c, s, r, r');
    } else if CopyMove(c, s, r, r') {
      CopyMoveKeeps(c, s, r, r');
    } else if LoadMove(s, r, r') {
      LoadMoveKeeps(c, s, r, r');
    } else if TooOldMove(c, r, r') {
      TooOldMoveKeeps(c, s, r, r');
    } else {
      DeliverMoveKeeps(c, s, r, r');
    }
  }

  lemma {:induction false} NextKeeps(c: Config, s: State, s': State)
    requires Inv(c, s) && Next(c, s, s')
    ensures Inv(c, s')
  {
    if ProducerMove(c, s.ring, s'.ring) && s' == s.(ring := s'.ring) {
      ProducerKeepsRing(c, s.ring, s'.ring);
      forall id | id in s'.readers
        ensures ReaderInv(c, s'.ring, s'.readers[id])
      {
        ProducerKeepsReader(c, s.ring, s'.ring, s.readers[id]);
      }
    } else if id: nat, r :| id in s.readers && ReaderMove(c, s.ring, s.readers[id], r) && s' == s.(readers := s.readers[id := r]) {
      ReaderMoveKeeps(c, s.ring, s.readers[id], r);
    }
  }

  lemma {:induction false} RunKeepsInv(c: Config, run: seq<State>, i: nat)
    requires Run(c, run) && i < |run|
    ensures Inv(c, run[i])
  {
    if i > 0 {
      RunKeepsInv(c, run, i - 1);
      NextKeeps(c, run[i - 1], run[i]);
    }
  }

  /** In every state of every run: whatever any call has delivered so far is exactly what was
      pushed under that index, with consecutive indexes, and a keyed read stays within keyEnd. */
  lemma {:induction false} DeliveriesAreTrue(c: Config, run: seq<State>, i: nat, id: nat)
    requires Run(c, run) && i < |run| && id in run[i].readers
    ensures var r := run[i].readers[id];
            TrueEntries(run[i].ring, r) && Consecutive(r) && WithinKeyEnd(r)
    ensures var r := run[i].readers[id];
            forall k | 0 <= k < |r.delivered| && r.delivered[k].1 != [] ::
              && (r.query.DescendByKey? ==> r.delivered[k].1[0] >= r.query.keyEnd)
              && (r.query.AscendByKey? ==> r.delivered[k].1[0] <= r.query.keyEnd)
  {
    RunKeepsInv(c, run, i);
  }

  /** No subtraction of an index goes below zero: find can always form "m_indexRead - index" and
      step to the older index, and a reader that goes down never steps below index 0. */
  lemma {:induction false} NoIndexUnderflow(c: Config, run: seq<State>, i: nat, id: nat)
    requires Run(c, run) && i < |run| && id in run[i].readers
    ensures var s, r := run[i].ring, run[i].readers[id];
            && (r.pc.FindSearch? ==> (r.pc.index + r.pc.indexEnd) / 2 <= s.indexRead)
            && (r.pc.FindAbsolute? ==> r.pc.index <= s.indexRead)
            && (r.pc.FindWalk? ==> r.pc.olderAbsoluteIndex >= 1)
            && (Judged(r) && !TooOld(c, r.curIndex, r.seenWrite.value, r.seenRead.value) ==> r.curIndex >= 1)
  {
    RunKeepsInv(c, run, i);
  }
}
