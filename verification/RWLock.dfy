/** The reader/writer lock of RWLock.hpp as a state machine: any threads call readScope, writeScope and
    release, or move scopes, and are interleaved at every access to the mutex, the counter, the
    condition variable and the scopes. */
module ReaderWriterLock {
  import opened Basics

  datatype Kind = READ | WRITE

  type Tid = nat

  type Sid = nat

  datatype Scope = Scope(kind: Kind, owner: bool)

  /** Where a thread stands. From "Checking" to "Acquired" and from "Releasing" to "Disowning" it has the
      mutex; "Sleeping" is the wait set of the condition variable. */
  datatype Pc =
    | Idle
    | Calling(kind: Kind)
    | Checking(kind: Kind)
    | Sleeping(kind: Kind)
    | Waking(kind: Kind)
    | Swapping(kind: Kind, expected: int)
    | Acquired(kind: Kind)
    | Letting(sid: Sid)
    | Releasing(sid: Sid)
    | Notifying(sid: Sid)
    | Disowning(sid: Sid)

  datatype State = State(pc: map<Tid, Pc>, mutex: Option<Tid>, counter: int, scopes: map<Sid, Scope>)

  datatype Step =
    | Call(t: Tid, kind: Kind) | Lock(t: Tid) | Test(t: Tid) | Swap(t: Tid) | Return(t: Tid, sid: Sid)
    | Release(t: Tid, sid: Sid) | Change(t: Tid) | Notify(t: Tid) | Disown(t: Tid) | Wake(t: Tid)
    | Move(from: Sid, to: Sid)

  function Init(threads: set<Tid>): State {
    State(map t | t in threads :: Idle, None, 0, map[])
  }

  /** What a wait waits for. */
  predicate Ready(kind: Kind, counter: int) {
    match kind case READ => counter >= 0 case WRITE => counter == 0
  }

  predicate HasMutex(pc: Pc) {
    pc.Checking? || pc.Swapping? || pc.Acquired? || pc.Releasing? || pc.Notifying? || pc.Disowning?
  }

  /** The scope whose release() a thread is in. */
  function Lets(pc: Pc): Option<Sid> {
    if pc.Letting? || pc.Releasing? || pc.Notifying? || pc.Disowning? then Some(pc.sid) else None
  }

  /** A scope is used by one thread at a time. */
  ghost predicate InUse(s: State, sid: Sid) {
    exists t :: t in s.pc && Lets(s.pc[t]) == Some(sid)
  }

  ghost predicate Enabled(s: State, step: Step) {
    match step
    case Call(t, _) => t in s.pc && s.pc[t].Idle?
    case Lock(t) => t in s.pc && (s.pc[t].Calling? || s.pc[t].Waking? || s.pc[t].Letting?) && s.mutex == None
    case Test(t) => t in s.pc && s.pc[t].Checking?
    case Swap(t) => t in s.pc && s.pc[t].Swapping?
    case Return(t, sid) => t in s.pc && s.pc[t].Acquired? && sid !in s.scopes
    case Release(t, sid) => t in s.pc && s.pc[t].Idle? && sid in s.scopes && !InUse(s, sid)
    case Change(t) => t in s.pc && s.pc[t].Releasing? && s.pc[t].sid in s.scopes
    case Notify(t) => t in s.pc && s.pc[t].Notifying?
    case Disown(t) => t in s.pc && s.pc[t].Disowning? && s.pc[t].sid in s.scopes
    case Wake(t) => t in s.pc && s.pc[t].Sleeping?
    case Move(from, to) => from in s.scopes && !InUse(s, from) && to !in s.scopes
  }

  function Go(s: State, t: Tid, pc: Pc): State { s.(pc := s.pc[t := pc]) }

  function Woken(pc: Pc): Pc { if pc.Sleeping? then Waking(pc.kind) else pc }

  function NotifyAll(pcs: map<Tid, Pc>): map<Tid, Pc> { map t | t in pcs :: Woken(pcs[t]) }

  /** The compare-exchange, from the value read before. */
  function Exchange(s: State, t: Tid, kind: Kind, expected: int): State {
    if s.counter != expected then Go(s, t, Checking(kind))
    else Go(s, t, Acquired(kind)).(counter := if kind == READ then expected + 1 else -1)
  }

  function Next(s: State, step: Step): State
    requires Enabled(s, step)
  {
    match step
    case Call(t, kind) => Go(s, t, Calling(kind))
    case Lock(t) => Go(s, t, if s.pc[t].Letting? then Releasing(s.pc[t].sid) else Checking(s.pc[t].kind)).(mutex := Some(t))
    case Test(t) =>
      var kind := s.pc[t].kind;
      if Ready(kind, s.counter) then Go(s, t, Swapping(kind, if kind == READ then s.counter else 0))
      else Go(s, t, Sleeping(kind)).(mutex := None)
    case Swap(t) => Exchange(s, t, s.pc[t].kind, s.pc[t].expected)
    case Return(t, sid) => Go(s, t, Idle).(mutex := None, scopes := s.scopes[sid := Scope(s.pc[t].kind, true)])
    case Release(t, sid) => if s.scopes[sid].owner then Go(s, t, Letting(sid)) else s
    case Change(t) =>
      var sid := s.pc[t].sid;
      Go(s, t, Notifying(sid)).(counter := if s.scopes[sid].kind == READ then s.counter - 1 else s.counter + 1)
    case Notify(t) => s.(pc := NotifyAll(s.pc)[t := Disowning(s.pc[t].sid)])
    case Disown(t) =>
      var sid := s.pc[t].sid;
      Go(s, t, Idle).(mutex := None, scopes := s.scopes[sid := s.scopes[sid].(owner := false)])
    case Wake(t) => Go(s, t, Woken(s.pc[t]))
    case Move(from, to) => s.(scopes := s.scopes[from := s.scopes[from].(owner := false)][to := Scope(s.scopes[from].kind, true)])
  }

  /** The moved scope becomes an owner even if it was none. A caller should move owning scopes only. */
  predicate Owning(s: State, step: Step) {
    step.Move? && step.from in s.scopes ==> s.scopes[step.from].owner
  }

  /** The assertions of readScope and writeScope, and that a compare-exchange succeeds. */
  ghost predicate Asserted(s: State, step: Step)
    requires Enabled(s, step)
  {
    match step
    case Lock(t) => s.pc[t].Calling? ==> s.counter >= -1
    case Swap(t) => s.counter == s.pc[t].expected
    case Return(t, _) => if s.pc[t].kind == READ then s.counter > 0 else s.counter == -1
    case _ => true
  }

  // ---- The invariant -----------------------------------------------------------------------------

  /** The scope whose share of the counter has been given back, though it still says it owns. */
  function GivenBack(s: State): Option<Sid> {
    if s.mutex.Some? && s.mutex.value in s.pc && (s.pc[s.mutex.value].Notifying? || s.pc[s.mutex.value].Disowning?)
    then Some(s.pc[s.mutex.value].sid) else None
  }

  /** The share of the counter that no scope has yet. */
  function Entering(s: State, kind: Kind): nat {
    if s.mutex.Some? && s.mutex.value in s.pc && s.pc[s.mutex.value] == Acquired(kind) then 1 else 0
  }

  /** The scopes of a kind that own the lock, but for one. */
  function Owners(scopes: map<Sid, Scope>, kind: Kind, except: Option<Sid>): set<Sid> {
    set sid | sid in scopes && scopes[sid] == Scope(kind, true) && except != Some(sid)
  }

  function Shares(s: State, kind: Kind): nat { |Owners(s.scopes, kind, GivenBack(s))| + Entering(s, kind) }

  /** The counter is the number of readers, or -1 with one writer and no reader. */
  ghost predicate Counted(s: State) {
    || (s.counter == Shares(s, READ) && Shares(s, WRITE) == 0)
    || (s.counter == -1 && Shares(s, READ) == 0 && Shares(s, WRITE) == 1)
  }

  /** The mutex is held by at most one thread. */
  ghost predicate Exclusive(s: State) {
    && (s.mutex.Some? ==> s.mutex.value in s.pc)
    && forall t | t in s.pc :: HasMutex(s.pc[t]) <==> s.mutex == Some(t)
  }

  /** A scope in release() owns, and no other thread releases it. */
  ghost predicate Released(s: State) {
    && (forall t | t in s.pc && Lets(s.pc[t]).Some? ::
          Lets(s.pc[t]).value in s.scopes && s.scopes[Lets(s.pc[t]).value].owner)
    && (forall t, u | t in s.pc && u in s.pc && t != u && Lets(s.pc[t]).Some? :: Lets(s.pc[t]) != Lets(s.pc[u]))
  }

  /** The value read before a compare-exchange is still right. */
  ghost predicate Fresh(s: State) {
    forall t | t in s.pc && s.pc[t].Swapping? :: s.pc[t].expected == s.counter && Ready(s.pc[t].kind, s.counter)
  }

  /** Nobody sleeps while what it waits for holds, except between the change of the counter and the
      notification. */
  ghost predicate Awake(s: State) {
    forall t | t in s.pc && s.pc[t].Sleeping? && Ready(s.pc[t].kind, s.counter) ::
      s.mutex.Some? && s.mutex.value in s.pc && s.pc[s.mutex.value].Notifying?
  }

  ghost predicate Inv(s: State) {
    Exclusive(s) && Released(s) && Fresh(s) && Awake(s) && Counted(s)
  }

  // ---- Every step keeps it -------------------------------------------------------------------------

  lemma {:induction false} StepIsSafe(s: State, step: Step)
    requires Inv(s) && Enabled(s, step)
    ensures Asserted(s, step)
  {
  }

  function Weight(scope: Scope, sid: Sid, kind: Kind, except: Option<Sid>): nat {
    if scope == Scope(kind, true) && except != Some(sid) then 1 else 0
  }

  /** What one scope adds to the owners. */
  lemma {:induction false} OwnersPut(scopes: map<Sid, Scope>, sid: Sid, scope: Scope, kind: Kind, except: Option<Sid>)
    ensures |Owners(scopes[sid := scope], kind, except)| == |Owners(scopes, kind, except)|
              - (if sid in scopes then Weight(scopes[sid], sid, kind, except) else 0) + Weight(scope, sid, kind, except)
  {
    var scopes' := scopes[sid := scope];
    forall k ensures k in Owners(scopes', kind, except) <==>
                     if k == sid then Weight(scope, sid, kind, except) == 1 else k in Owners(scopes, kind, except)
    {
    }
    SizeWithout(Owners(scopes, kind, except), Owners(scopes', kind, except), sid);
  }

  lemma {:induction false} SizeWithout(a: set<Sid>, b: set<Sid>, sid: Sid)
    requires a - {sid} == b - {sid}
    ensures |b| == |a| - (if sid in a then 1 else 0) + (if sid in b then 1 else 0)
  {
    assert a == if sid in a then (a - {sid}) + {sid} else a - {sid};
    assert b == if sid in b then (b - {sid}) + {sid} else b - {sid};
  }

  lemma {:induction false} OwnersExcept(scopes: map<Sid, Scope>, sid: Sid, kind: Kind)
    requires sid in scopes
    ensures |Owners(scopes, kind, Some(sid))| == |Owners(scopes, kind, None)| - Weight(scopes[sid], sid, kind, None)
  {
    var rest := Owners(scopes, kind, Some(sid));
    assert Owners(scopes, kind, None) == if Weight(scopes[sid], sid, kind, None) == 1 then rest + {sid} else rest;
  }

  lemma {:induction false} CallKeeps(s: State, t: Tid, kind: Kind)
    requires Inv(s) && Enabled(s, Call(t, kind))
    ensures Inv(Next(s, Call(t, kind)))
  {
  }

  lemma {:induction false} LockKeeps(s: State, t: Tid)
    requires Inv(s) && Enabled(s, Lock(t))
    ensures Inv(Next(s, Lock(t)))
  {
  }

  lemma {:induction false} TestKeeps(s: State, t: Tid)
    requires Inv(s) && Enabled(s, Test(t))
    ensures Inv(Next(s, Test(t)))
  {
  }

  lemma {:induction false} SwapKeeps(s: State, t: Tid)
    requires Inv(s) && Enabled(s, Swap(t))
    ensures Inv(Next(s, Swap(t)))
  {
  }

  lemma {:induction false} ReturnKeeps(s: State, t: Tid, sid: Sid)
    requires Inv(s) && Enabled(s, Return(t, sid))
    ensures Inv(Next(s, Return(t, sid)))
  {
    ReturnCounts(s, t, sid);
  }

  lemma {:induction false} ReleaseKeeps(s: State, t: Tid, sid: Sid)
    requires Inv(s) && Enabled(s, Release(t, sid))
    ensures Inv(Next(s, Release(t, sid)))
  {
  }

  lemma {:induction false} ChangeKeeps(s: State, t: Tid)
    requires Inv(s) && Enabled(s, Change(t))
    ensures Inv(Next(s, Change(t)))
  {
    ChangeCounts(s, t);
  }

  lemma {:induction false} NotifyKeeps(s: State, t: Tid)
    requires Inv(s) && Enabled(s, Notify(t))
    ensures Inv(Next(s, Notify(t)))
  {
    NotifyWakesAll(s, t);
    NotifyKeepsReleased(s, t);
  }

  lemma {:induction false} NotifyWakesAll(s: State, t: Tid)
    requires Inv(s) && Enabled(s, Notify(t))
    ensures var s' := Next(s, Notify(t)); Exclusive(s') && Fresh(s') && Awake(s') && Counted(s')
    ensures forall u | u in s.pc :: !Next(s, Notify(t)).pc[u].Sleeping?
  {
  }

  lemma {:induction false} NotifyKeepsReleased(s: State, t: Tid)
    requires Inv(s) && Enabled(s, Notify(t))
    ensures Released(Next(s, Notify(t)))
  {
    var s' := Next(s, Notify(t));
    assert forall u | u in s'.pc :: Lets(s'.pc[u]) == Lets(s.pc[u]);
  }

  lemma {:induction false} DisownKeeps(s: State, t: Tid)
    requires Inv(s) && Enabled(s, Disown(t))
    ensures Inv(Next(s, Disown(t)))
  {
    DisownCounts(s, t);
  }

  lemma {:induction false} WakeKeeps(s: State, t: Tid)
    requires Inv(s) && Enabled(s, Wake(t))
    ensures Inv(Next(s, Wake(t)))
  {
  }

  lemma {:induction false} MoveKeeps(s: State, from: Sid, to: Sid)
    requires Inv(s) && Enabled(s, Move(from, to))
    ensures Counted(Next(s, Move(from, to))) <==> s.scopes[from].owner
    ensures Inv(Next(s, Move(from, to))) <==> s.scopes[from].owner
  {
    MoveCounts(s, from, to);
    MoveKeepsOthers(s, from, to);
  }

  lemma {:induction false} MoveKeepsOthers(s: State, from: Sid, to: Sid)
    requires Inv(s) && Enabled(s, Move(from, to))
    ensures var s' := Next(s, Move(from, to)); Exclusive(s') && Released(s') && Fresh(s') && Awake(s')
  {
  }

  lemma {:induction false} ReturnCounts(s: State, t: Tid, sid: Sid)
    requires Inv(s) && Enabled(s, Return(t, sid))
    ensures Counted(Next(s, Return(t, sid)))
  {
    var scope := Scope(s.pc[t].kind, true);
    OwnersPut(s.scopes, sid, scope, READ, None);
    OwnersPut(s.scopes, sid, scope, WRITE, None);
  }

  lemma {:induction false} ChangeCounts(s: State, t: Tid)
    requires Inv(s) && Enabled(s, Change(t))
    ensures Counted(Next(s, Change(t)))
  {
    var sid := s.pc[t].sid;
    OwnersExcept(s.scopes, sid, READ);
    OwnersExcept(s.scopes, sid, WRITE);
  }

  lemma {:induction false} DisownCounts(s: State, t: Tid)
    requires Inv(s) && Enabled(s, Disown(t))
    ensures Counted(Next(s, Disown(t)))
  {
    var sid := s.pc[t].sid;
    var scope := s.scopes[sid].(owner := false);
    OwnersExcept(s.scopes, sid, READ);
    OwnersExcept(s.scopes, sid, WRITE);
    OwnersPut(s.scopes, sid, scope, READ, None);
    OwnersPut(s.scopes, sid, scope, WRITE, None);
  }

  /** A move hands over a share that the moved scope has, and invents one that it does not have. */
  lemma {:induction false} MoveCounts(s: State, from: Sid, to: Sid)
    requires Inv(s) && Enabled(s, Move(from, to))
    ensures Counted(Next(s, Move(from, to))) <==> s.scopes[from].owner
  {
    var scope, except := s.scopes[from], GivenBack(s);
    MoveIsFree(s, from, to);
    MovedOwners(s.scopes, from, to, READ, except);
    MovedOwners(s.scopes, from, to, WRITE, except);
  }

  /** The scope whose share is given back is in use, so it is neither the source nor the target. */
  lemma {:induction false} MoveIsFree(s: State, from: Sid, to: Sid)
    requires Inv(s) && Enabled(s, Move(from, to))
    ensures GivenBack(s) != Some(from) && GivenBack(s) != Some(to) && from != to
    ensures GivenBack(Next(s, Move(from, to))) == GivenBack(s)
  {
    if GivenBack(s).Some? {
      assert Lets(s.pc[s.mutex.value]) == GivenBack(s);
    }
  }

  lemma {:induction false} MovedOwners(scopes: map<Sid, Scope>, from: Sid, to: Sid, kind: Kind, except: Option<Sid>)
    requires from in scopes && to !in scopes && from != to && except != Some(from) && except != Some(to)
    ensures var moved := scopes[from := scopes[from].(owner := false)][to := Scope(scopes[from].kind, true)];
            |Owners(moved, kind, except)| ==
            |Owners(scopes, kind, except)| + if scopes[from].kind == kind && !scopes[from].owner then 1 else 0
  {
    var scope := scopes[from];
    OwnersPut(scopes, from, scope.(owner := false), kind, except);
    OwnersPut(scopes[from := scope.(owner := false)], to, Scope(scope.kind, true), kind, except);
  }

  lemma {:induction false} StepKeeps(s: State, step: Step)
    requires Inv(s) && Enabled(s, step) && Owning(s, step)
    ensures Inv(Next(s, step))
  {
    match step
    case Call(t, kind) => CallKeeps(s, t, kind);
    case Lock(t) => LockKeeps(s, t);
    case Test(t) => TestKeeps(s, t);
    case Swap(t) => SwapKeeps(s, t);
    case Return(t, sid) => ReturnKeeps(s, t, sid);
    case Release(t, sid) => ReleaseKeeps(s, t, sid);
    case Change(t) => ChangeKeeps(s, t);
    case Notify(t) => NotifyKeeps(s, t);
    case Disown(t) => DisownKeeps(s, t);
    case Wake(t) => WakeKeeps(s, t);
    case Move(from, to) => MoveKeeps(s, from, to);
  }

  // ---- Runs ------------------------------------------------------------------------------------------

  ghost predicate IsRun(run: seq<State>, steps: seq<Step>) {
    && |run| == |steps| + 1
    && forall k | 0 <= k < |steps| :: Enabled(run[k], steps[k]) && run[k + 1] == Next(run[k], steps[k])
  }

  /** The first "k" steps only move scopes that own. */
  ghost predicate MovesOwn(run: seq<State>, steps: seq<Step>, k: nat)
    requires k <= |steps| < |run|
  {
    forall j | 0 <= j < k :: Owning(run[j], steps[j])
  }

  lemma {:induction false} RunKeeps(run: seq<State>, steps: seq<Step>, threads: set<Tid>, k: nat)
    requires IsRun(run, steps) && run[0] == Init(threads) && k <= |steps| && MovesOwn(run, steps, k)
    ensures Inv(run[k])
  {
    if k > 0 {
      RunKeeps(run, steps, threads, k - 1);
      StepKeeps(run[k - 1], steps[k - 1]);
    } else {
      assert forall kind :: Owners(run[0].scopes, kind, None) == {};
    }
  }

  /** What the lock promises to its callers, whenever no thread has the mutex. */
  ghost predicate Promised(s: State) {
    var readers := set sid | sid in s.scopes && s.scopes[sid] == Scope(READ, true);
    var writers := set sid | sid in s.scopes && s.scopes[sid] == Scope(WRITE, true);
    && (if s.counter >= 0 then s.counter == |readers| && writers == {} else s.counter == -1 && readers == {} && |writers| == 1)
    && (forall t | t in s.pc && s.pc[t].Sleeping? :: !Ready(s.pc[t].kind, s.counter))
  }

  /** In every interleaving that moves owning scopes only: no assertion fires and no compare-exchange
      fails; whenever the mutex is free the counter says exactly who owns the lock, and nobody sleeps while what
      it waits for holds. */
  lemma {:induction false} RunIsSafe(run: seq<State>, steps: seq<Step>, threads: set<Tid>, k: nat)
    requires IsRun(run, steps) && run[0] == Init(threads) && k <= |steps| && MovesOwn(run, steps, k)
    ensures k < |steps| ==> Asserted(run[k], steps[k])
    ensures run[k].mutex == None ==> Promised(run[k])
    ensures Counted(run[k]) && Awake(run[k])
  {
    RunKeeps(run, steps, threads, k);
    if k < |steps| { StepIsSafe(run[k], steps[k]); }
    if run[k].mutex == None { InvPromises(run[k]); }
  }

  /** The counter says who owns the lock in every state of a run exactly when the run only moves scopes
      that own. */
  lemma {:induction false} CountedExactly(run: seq<State>, steps: seq<Step>, threads: set<Tid>)
    requires IsRun(run, steps) && run[0] == Init(threads)
    ensures (forall k | 0 <= k <= |steps| :: Counted(run[k])) <==> MovesOwn(run, steps, |steps|)
  {
    if MovesOwn(run, steps, |steps|) {
      forall k | 0 <= k <= |steps| ensures Counted(run[k]) { RunKeeps(run, steps, threads, k); }
    } else {
      var j := FirstBadMove(run, steps, 0);
      RunKeeps(run, steps, threads, j);
      MoveKeeps(run[j], steps[j].from, steps[j].to);
      assert !Counted(run[j + 1]);
    }
  }

  lemma {:induction false} FirstBadMove(run: seq<State>, steps: seq<Step>, from: nat) returns (j: nat)
    requires from <= |steps| < |run| && MovesOwn(run, steps, from) && !MovesOwn(run, steps, |steps|)
    ensures j < |steps| && !Owning(run[j], steps[j]) && MovesOwn(run, steps, j)
    decreases |steps| - from
  {
    if Owning(run[from], steps[from]) { j := FirstBadMove(run, steps, from + 1); } else { j := from; }
  }

  lemma {:induction false} InvPromises(s: State)
    requires Inv(s) && s.mutex == None
    ensures Promised(s)
  {
    var readers := set sid | sid in s.scopes && s.scopes[sid] == Scope(READ, true);
    var writers := set sid | sid in s.scopes && s.scopes[sid] == Scope(WRITE, true);
    assert Owners(s.scopes, READ, None) == readers && Owners(s.scopes, WRITE, None) == writers;
  }

  /** At any moment, even between steps of other calls, a scope that owns for writing and is not being
      released is the only owner. */
  lemma {:induction false} WriterIsAlone(s: State, writer: Sid, other: Sid)
    requires Inv(s) && writer in s.scopes && s.scopes[writer] == Scope(WRITE, true) && GivenBack(s) != Some(writer)
    requires other in s.scopes && s.scopes[other].owner && GivenBack(s) != Some(other)
    ensures other == writer
  {
    var readers, writers := Owners(s.scopes, READ, GivenBack(s)), Owners(s.scopes, WRITE, GivenBack(s));
    assert writer in writers;
    OwnsSomehow(s, other);
    SubsetIsSmaller({writer}, writers);
    assert readers == {};
    if other != writer { SubsetIsSmaller({writer, other}, writers); }
  }

  lemma {:induction false} OwnsSomehow(s: State, sid: Sid)
    requires sid in s.scopes && s.scopes[sid].owner && GivenBack(s) != Some(sid)
    ensures sid in Owners(s.scopes, READ, GivenBack(s)) + Owners(s.scopes, WRITE, GivenBack(s))
  {
    match s.scopes[sid].kind
    case READ => assert s.scopes[sid] == Scope(READ, true);
    case WRITE => assert s.scopes[sid] == Scope(WRITE, true);
  }

  lemma {:induction false} SubsetIsSmaller(a: set<Sid>, b: set<Sid>)
    requires a <= b
    ensures |a| <= |b|
  {
    assert b == a + (b - a);
  }

  // ---- A move that is allowed and breaks the count -----------------------------------------------------

  lemma {:induction false} OneMore(run: seq<State>, steps: seq<Step>, step: Step, next: State)
    requires IsRun(run, steps) && Enabled(run[|steps|], step) && next == Next(run[|steps|], step)
    ensures IsRun(run + [next], steps + [step]) && (run + [next])[0] == run[0]
    ensures (run + [next])[|steps + [step]|] == next
  {
    var run', steps' := run + [next], steps + [step];
    forall k | 0 <= k < |steps'| ensures Enabled(run'[k], steps'[k]) && run'[k + 1] == Next(run'[k], steps'[k]) {
      if k < |steps| { assert run'[k] == run[k] && run'[k + 1] == run[k + 1] && steps'[k] == steps[k]; }
    }
  }

  /** One thread takes the lock for reading. */
  lemma {:induction false} TakesReadScope() returns (run: seq<State>, steps: seq<Step>)
    ensures IsRun(run, steps) && run[0] == Init({0})
    ensures run[|steps|] == State(map[0 := Idle], None, 1, map[0 := Scope(READ, true)])
  {
    run, steps := [Init({0})], [];
    assert Init({0}).pc == map[0 := Idle];
    var s1 := State(map[0 := Calling(READ)], None, 0, map[]);
    OneMore(run, steps, Call(0, READ), s1);
    run, steps := run + [s1], steps + [Call(0, READ)];
    var s2 := State(map[0 := Checking(READ)], Some(0), 0, map[]);
    OneMore(run, steps, Lock(0), s2);
    run, steps := run + [s2], steps + [Lock(0)];
    var s3 := State(map[0 := Swapping(READ, 0)], Some(0), 0, map[]);
    OneMore(run, steps, Test(0), s3);
    run, steps := run + [s3], steps + [Test(0)];
    var s4 := State(map[0 := Acquired(READ)], Some(0), 1, map[]);
    OneMore(run, steps, Swap(0), s4);
    run, steps := run + [s4], steps + [Swap(0)];
    var s5 := State(map[0 := Idle], None, 1, map[0 := Scope(READ, true)]);
    OneMore(run, steps, Return(0, 0), s5);
    run, steps := run + [s5], steps + [Return(0, 0)];
  }

  /** It enters release(). */
  lemma {:induction false} EntersRelease(before: seq<State>, events: seq<Step>) returns (run: seq<State>, steps: seq<Step>)
    requires IsRun(before, events)
    requires before[|events|] == State(map[0 := Idle], None, 1, map[0 := Scope(READ, true)])
    ensures IsRun(run, steps) && run[0] == before[0]
    ensures run[|steps|] == State(map[0 := Notifying(0)], Some(0), 0, map[0 := Scope(READ, true)])
  {
    run, steps := before, events;
    var scopes := map[0 := Scope(READ, true)];
    var s1 := State(map[0 := Letting(0)], None, 1, scopes);
    OneMore(run, steps, Release(0, 0), s1);
    run, steps := run + [s1], steps + [Release(0, 0)];
    var s2 := State(map[0 := Releasing(0)], Some(0), 1, scopes);
    OneMore(run, steps, Lock(0), s2);
    run, steps := run + [s2], steps + [Lock(0)];
    var s3 := State(map[0 := Notifying(0)], Some(0), 0, scopes);
    OneMore(run, steps, Change(0), s3);
    run, steps := run + [s3], steps + [Change(0)];
  }

  /** And it leaves release(). */
  lemma {:induction false} LeavesRelease(before: seq<State>, events: seq<Step>) returns (run: seq<State>, steps: seq<Step>)
    requires IsRun(before, events)
    requires before[|events|] == State(map[0 := Notifying(0)], Some(0), 0, map[0 := Scope(READ, true)])
    ensures IsRun(run, steps) && run[0] == before[0]
    ensures run[|steps|] == State(map[0 := Idle], None, 0, map[0 := Scope(READ, false)])
  {
    run, steps := before, events;
    var s1 := State(map[0 := Disowning(0)], Some(0), 0, map[0 := Scope(READ, true)]);
    OneMore(run, steps, Notify(0), s1);
    run, steps := run + [s1], steps + [Notify(0)];
    var s2 := State(map[0 := Idle], None, 0, map[0 := Scope(READ, false)]);
    OneMore(run, steps, Disown(0), s2);
    run, steps := run + [s2], steps + [Disown(0)];
  }

  /** One thread takes the lock for reading, releases its scope, and moves it: the lock is free, and the
      new scope owns it. */
  lemma {:induction false} MoveExample() returns (run: seq<State>, steps: seq<Step>)
    ensures IsRun(run, steps) && run[0] == Init({0}) && |steps| > 0 && steps[|steps| - 1] == Move(0, 1)
    ensures run[|steps|].counter == 0 && 1 in run[|steps|].scopes && run[|steps|].scopes[1] == Scope(READ, true)
    ensures !Counted(run[|steps|])
  {
    run, steps := TakesReadScope();
    run, steps := EntersRelease(run, steps);
    run, steps := LeavesRelease(run, steps);
    var s := State(map[0 := Idle], None, 0, map[0 := Scope(READ, false), 1 := Scope(READ, true)]);
    OneMore(run, steps, Move(0, 1), s);
    run, steps := run + [s], steps + [Move(0, 1)];
    assert 1 in Owners(s.scopes, READ, None);
  }
}
