/** What the lock of RWLock.hpp does for its callers: which scope a call returns, whom it keeps out, and that a
    call that finds the lock free gets it. */
module ReaderWriterCalls {
  import opened Basics
  import opened ReaderWriterLock

  // ---- The scope that a call returns ---------------------------------------------------------------------

  /** The kind of the latest call of a thread among the first "k" steps. */
  function LastCall(steps: seq<Step>, k: nat, t: Tid): Option<Kind>
    requires k <= |steps|
    decreases k
  {
    if k == 0 then None
    else if steps[k - 1].Call? && steps[k - 1].t == t then Some(steps[k - 1].kind)
    else LastCall(steps, k - 1, t)
  }

  /** The kind of scope that a thread is about to get. */
  function Wants(pc: Pc): Option<Kind> {
    match pc
    case Calling(kind) => Some(kind)
    case Checking(kind) => Some(kind)
    case Sleeping(kind) => Some(kind)
    case Waking(kind) => Some(kind)
    case Swapping(kind, _) => Some(kind)
    case Acquired(kind) => Some(kind)
    case _ => None
  }

  lemma {:induction false} StepWants(s: State, step: Step, t: Tid)
    requires Enabled(s, step) && t in s.pc
    ensures var s' := Next(s, step);
            && t in s'.pc
            && (Wants(s'.pc[t]).Some? ==> Wants(s'.pc[t]) == if step.Call? && step.t == t then Some(step.kind) else Wants(s.pc[t]))
            && (step.Call? && step.t == t ==> Wants(s'.pc[t]) == Some(step.kind))
  {
  }

  /** A thread that is inside a call wants what its latest call asked for. */
  lemma {:induction false} WantsItsCall(run: seq<State>, steps: seq<Step>, threads: set<Tid>, k: nat, t: Tid)
    requires IsRun(run, steps) && run[0] == Init(threads) && k <= |steps| && t in run[k].pc && Wants(run[k].pc[t]).Some?
    ensures LastCall(steps, k, t) == Wants(run[k].pc[t])
    decreases k
  {
    if k > 0 {
      var step := steps[k - 1];
      assert Enabled(run[k - 1], step) && run[k] == Next(run[k - 1], step);
      SameThreads(run[k - 1], step, t);
      StepWants(run[k - 1], step, t);
      if !(step.Call? && step.t == t) { WantsItsCall(run, steps, threads, k - 1, t); }
    }
  }

  lemma {:induction false} SameThreads(s: State, step: Step, t: Tid)
    requires Enabled(s, step)
    ensures t in Next(s, step).pc <==> t in s.pc
  {
  }

  /** In every run, with moves of any scopes, a call returns an owning scope of the kind that the latest call of
      its thread asked for. */
  lemma {:induction false} ReturnsItsCall(run: seq<State>, steps: seq<Step>, threads: set<Tid>, k: nat)
    requires IsRun(run, steps) && run[0] == Init(threads) && k < |steps| && steps[k].Return?
    ensures var Return(t, sid) := steps[k];
            && LastCall(steps, k, t).Some? && sid !in run[k].scopes
            && run[k + 1].scopes == run[k].scopes[sid := Scope(LastCall(steps, k, t).value, true)]
  {
    var t := steps[k].t;
    assert Enabled(run[k], steps[k]) && run[k + 1] == Next(run[k], steps[k]);
    WantsItsCall(run, steps, threads, k, t);
  }

  /** A scope never changes its kind, and never begins to own again. */
  lemma {:induction false} ScopeStays(s: State, step: Step, sid: Sid)
    requires Enabled(s, step) && sid in s.scopes
    ensures var s' := Next(s, step);
            sid in s'.scopes && s'.scopes[sid].kind == s.scopes[sid].kind && (s'.scopes[sid].owner ==> s.scopes[sid].owner)
  {
  }

  // ---- Whom a scope keeps out ----------------------------------------------------------------------------

  /** When a call returns, no scope owns for writing; and when a WRITE call returns, none owns at all. */
  lemma {:induction false} ReturnsAlone(run: seq<State>, steps: seq<Step>, threads: set<Tid>, k: nat, sid: Sid)
    requires IsRun(run, steps) && run[0] == Init(threads) && k < |steps| && steps[k].Return? && MovesOwn(run, steps, k)
    requires sid in run[k].scopes && run[k].scopes[sid].owner
    ensures run[k].scopes[sid].kind == READ && LastCall(steps, k, steps[k].t) == Some(READ)
  {
    var s, t := run[k], steps[k].t;
    RunKeeps(run, steps, threads, k);
    StepIsSafe(s, steps[k]);
    assert Enabled(s, steps[k]);
    WantsItsCall(run, steps, threads, k, t);
    assert GivenBack(s) == None;
    OwnsSomehow(s, sid);
    assert Owners(s.scopes, READ, None) == {} || Owners(s.scopes, WRITE, None) == {};
  }

  /** A writer has the lock: no thread is on its way to return. */
  ghost predicate Written(s: State) {
    s.counter == -1 && forall t | t in s.pc :: !s.pc[t].Acquired? && !s.pc[t].Swapping?
  }

  lemma {:induction false} ReturnWrites(s: State, step: Step)
    requires Inv(s) && Enabled(s, step) && step.Return? && s.pc[step.t].kind == WRITE
    ensures Written(Next(s, step))
  {
    StepIsSafe(s, step);
    assert s.mutex == Some(step.t);
  }

  /** Nothing but giving the share back ends it. */
  lemma {:induction false} StaysWritten(s: State, step: Step)
    requires Inv(s) && Written(s) && Enabled(s, step)
    ensures !step.Return? && (!step.Change? ==> Written(Next(s, step)))
    ensures step.Change? ==> s.scopes[s.pc[step.t].sid].kind == WRITE && Next(s, step).counter == 0
  {
    if step.Change? {
      var sid := s.pc[step.t].sid;
      assert Lets(s.pc[step.t]) == Some(sid) && s.mutex == Some(step.t);
      OwnsSomehow(s, sid);
    }
  }

  lemma {:induction false} WrittenFirst(run: seq<State>, steps: seq<Step>, threads: set<Tid>, i: nat)
    requires IsRun(run, steps) && run[0] == Init(threads) && i < |steps| && MovesOwn(run, steps, i)
    requires steps[i].Return? && LastCall(steps, i, steps[i].t) == Some(WRITE)
    ensures Written(run[i + 1])
  {
    assert Enabled(run[i], steps[i]) && run[i + 1] == Next(run[i], steps[i]);
    RunKeeps(run, steps, threads, i);
    WantsItsCall(run, steps, threads, i, steps[i].t);
    ReturnWrites(run[i], steps[i]);
  }

  lemma {:induction false} WrittenNext(run: seq<State>, steps: seq<Step>, threads: set<Tid>, k: nat)
    requires IsRun(run, steps) && run[0] == Init(threads) && k < |steps| && MovesOwn(run, steps, k)
    requires Written(run[k]) && !steps[k].Change?
    ensures Written(run[k + 1])
  {
    assert Enabled(run[k], steps[k]) && run[k + 1] == Next(run[k], steps[k]);
    RunKeeps(run, steps, threads, k);
    StaysWritten(run[k], steps[k]);
  }

  lemma {:induction false} StillWritten(run: seq<State>, steps: seq<Step>, threads: set<Tid>, i: nat, k: nat)
    requires IsRun(run, steps) && run[0] == Init(threads) && i < k <= |steps| && MovesOwn(run, steps, k)
    requires steps[i].Return? && LastCall(steps, i, steps[i].t) == Some(WRITE)
    requires forall j | i < j < k :: !steps[j].Change?
    ensures Written(run[k])
    decreases k
  {
    if k == i + 1 {
      WrittenFirst(run, steps, threads, i);
    } else {
      StillWritten(run, steps, threads, i, k - 1);
      WrittenNext(run, steps, threads, k - 1);
    }
  }

  /** From the return of a WRITE call until a share is given back, no call of any thread returns; and the share
      that is given back then is the one of that call. */
  lemma {:induction false} WriteCallExcludes(run: seq<State>, steps: seq<Step>, threads: set<Tid>, i: nat, k: nat)
    requires IsRun(run, steps) && run[0] == Init(threads) && i < k < |steps| && MovesOwn(run, steps, k)
    requires steps[i].Return? && LastCall(steps, i, steps[i].t) == Some(WRITE)
    requires forall j | i < j < k :: !steps[j].Change?
    ensures !steps[k].Return?
    ensures steps[k].Change? ==> run[k].scopes[run[k].pc[steps[k].t].sid].kind == WRITE && run[k + 1].counter == 0
  {
    StillWritten(run, steps, threads, i, k);
    RunKeeps(run, steps, threads, k);
    assert Enabled(run[k], steps[k]) && run[k + 1] == Next(run[k], steps[k]);
    StaysWritten(run[k], steps[k]);
  }

  // ---- That a call gets the lock --------------------------------------------------------------------------

  /** The steps of a call that does not have to wait. */
  function CallSteps(t: Tid, kind: Kind, sid: Sid): seq<Step> {
    [Call(t, kind), Lock(t), Test(t), Swap(t), Return(t, sid)]
  }

  function ReleaseSteps(t: Tid, sid: Sid): seq<Step> {
    [Release(t, sid), Lock(t), Change(t), Notify(t), Disown(t)]
  }

  ghost predicate Goes(s: State, steps: seq<Step>, s': State)
    decreases |steps|
  {
    if steps == [] then s' == s else Enabled(s, steps[0]) && Goes(Next(s, steps[0]), steps[1..], s')
  }

  lemma {:induction false} GoesFive(s: State, a: Step, b: Step, c: Step, d: Step, e: Step)
    requires Enabled(s, a)
    requires var s1 := Next(s, a); Enabled(s1, b)
    requires var s2 := Next(Next(s, a), b); Enabled(s2, c)
    requires var s3 := Next(Next(Next(s, a), b), c); Enabled(s3, d)
    requires var s4 := Next(Next(Next(Next(s, a), b), c), d); Enabled(s4, e)
    ensures Goes(s, [a, b, c, d, e], Next(Next(Next(Next(Next(s, a), b), c), d), e))
  {
    var s1 := Next(s, a);
    var s2 := Next(s1, b);
    var s3 := Next(s2, c);
    var s4 := Next(s3, d);
    var s5 := Next(s4, e);
    var nothing: seq<Step> := [];
    assert Goes(s5, nothing, s5);
    assert [e][1..] == nothing && Goes(s4, [e], s5);
    assert [d, e][1..] == [e] && Goes(s3, [d, e], s5);
    assert [c, d, e][1..] == [d, e] && Goes(s2, [c, d, e], s5);
    assert [b, c, d, e][1..] == [c, d, e] && Goes(s1, [b, c, d, e], s5);
    assert [a, b, c, d, e][1..] == [b, c, d, e];
  }

  /** A call that finds the mutex free and the lock free for its kind returns an owning scope of that kind. */
  lemma {:induction false} CallTakesLock(s: State, t: Tid, kind: Kind, sid: Sid)
    requires t in s.pc && s.pc[t] == Idle && s.mutex == None && sid !in s.scopes
    requires if kind == READ then s.counter >= 0 else s.counter == 0
    ensures Goes(s, CallSteps(t, kind, sid),
                 s.(counter := if kind == READ then s.counter + 1 else -1, scopes := s.scopes[sid := Scope(kind, true)]))
  {
    var s1 := Next(s, Call(t, kind));
    var s2 := Next(s1, Lock(t));
    var s3 := Next(s2, Test(t));
    var s4 := Next(s3, Swap(t));
    var s5 := Next(s4, Return(t, sid));
    GoesFive(s, Call(t, kind), Lock(t), Test(t), Swap(t), Return(t, sid));
    assert s5.pc == s.pc;
  }

  /** A release that finds the mutex free gives the share back, wakes all sleepers, and leaves a scope that does
      not own. */
  lemma {:induction false} ReleaseGivesBack(s: State, t: Tid, sid: Sid)
    requires t in s.pc && s.pc[t] == Idle && s.mutex == None && sid in s.scopes && s.scopes[sid].owner && !InUse(s, sid)
    ensures var kind := s.scopes[sid].kind;
            Goes(s, ReleaseSteps(t, sid),
                 State(NotifyAll(s.pc), None, if kind == READ then s.counter - 1 else s.counter + 1,
                       s.scopes[sid := Scope(kind, false)]))
  {
    var s1 := Next(s, Release(t, sid));
    var s2 := Next(s1, Lock(t));
    var s3 := Next(s2, Change(t));
    var s4 := Next(s3, Notify(t));
    var s5 := Next(s4, Disown(t));
    GoesFive(s, Release(t, sid), Lock(t), Change(t), Notify(t), Disown(t));
    assert s5.pc == NotifyAll(s.pc);
  }
}
