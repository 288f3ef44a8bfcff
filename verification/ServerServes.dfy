/** What the server of Server/ServerTemplate.hpp does for a connection that it accepts: with a slot to give, a worker
    gets its socket, serves it and closes it; without one, it is closed. */
module ServerServes {
  import opened Basics
  import opened ConnectionSlots
  import opened ServerRuns

  /** These steps can be taken one after the other, and lead from "s" to "s'". */
  predicate Goes(s: State, steps: seq<Step>, s': State)
    decreases |steps|
  {
    if steps == [] then s' == s else Enabled(s, steps[0]) && Goes(Next(s, steps[0]), steps[1..], s')
  }

  lemma {:induction false} GoesFurther(s: State, first: seq<Step>, s1: State, rest: seq<Step>, s2: State)
    requires Goes(s, first, s1) && Goes(s1, rest, s2)
    ensures Goes(s, first + rest, s2)
    decreases |first|
  {
    if first == [] {
      assert first + rest == rest;
    } else {
      assert (first + rest)[1..] == first[1..] + rest;
      GoesFurther(Next(s, first[0]), first[1..], s1, rest, s2);
    }
  }

  lemma {:induction false} OneStep(s: State, step: Step)
    requires Enabled(s, step)
    ensures Goes(s, [step], Next(s, step))
    ensures Inv(s) ==> Inv(Next(s, step))
  {
    var nothing: seq<Step> := [];
    assert [step][1..] == nothing && Goes(Next(s, step), nothing, Next(s, step));
    if Inv(s) { StepKeeps(s, step); }
  }

  lemma {:induction false} ThreeSteps(s: State, a: Step, b: Step, c: Step)
    requires Inv(s) && Enabled(s, a)
    requires var s1 := Next(s, a); Enabled(s1, b)
    requires var s2 := Next(Next(s, a), b); Enabled(s2, c)
    ensures var s3 := Next(Next(Next(s, a), b), c); Goes(s, [a, b, c], s3) && Inv(s3)
  {
    var s1 := Next(s, a);
    var s2 := Next(s1, b);
    OneStep(s, a);
    OneStep(s1, b);
    OneStep(s2, c);
    GoesFurther(s, [a], s1, [b], s2);
    GoesFurther(s, [a] + [b], s2, [c], Next(s2, c));
    assert [a] + [b] + [c] == [a, b, c];
  }

  // ---- The sweep -----------------------------------------------------------------------------------------------

  /** The slots that a sweep has to free: the terminated ones after an accept, all that are in use at the end. */
  predicate IsSwept(client: Client, p: Purpose) {
    match p case Collect(_) => client.status == TERMINATED case Shutdown => client.status != FREE
  }

  /** The workers of these slots have come to their end, so that joining them does not block. */
  predicate AllDone(s: State, p: Purpose) {
    forall i: nat | i < |s.table.clients| && IsSwept(s.table.clients[i], p) :: IsDone(s, s.table.clients[i].thread)
  }

  /** What a sweep leaves of the slots from "i" to "end": those that it has to free are free, the others as they
      were. */
  predicate Swept(s: State, s': State, p: Purpose, i: nat, end: nat) {
    && |s'.table.clients| == |s.table.clients| && s'.workers.Keys <= s.workers.Keys && s'.open == s.open
    && forall j: nat | j < |s.table.clients| ::
         if i <= j < end && IsSwept(s.table.clients[j], p) then s'.table.clients[j].status == FREE
         else s'.table.clients[j] == s.table.clients[j]
  }

  /** A slot is joined and freed. */
  function Freed(s: State, p: Purpose, i: nat): State
    requires i < |s.table.clients| && s.table.clients[i].thread.Some?
  {
    var client := s.table.clients[i];
    s.(table := Table(s.table.clients[i := client.(status := FREE, thread := None)], s.table.active - 1),
       workers := s.workers - {client.thread.value}, acceptor := Sweeping(p, i + 1))
  }

  lemma {:induction false} FreeingSteps(s: State, p: Purpose, i: nat)
    requires s.acceptor == Sweeping(p, i) && i < |s.table.clients|
    requires IsSwept(s.table.clients[i], p) && IsDone(s, s.table.clients[i].thread)
    ensures Enabled(s, Sweep) && Enabled(Next(s, Sweep), Join) && Enabled(Next(Next(s, Sweep), Join), Free)
    ensures Next(Next(Next(s, Sweep), Join), Free) == Freed(s, p, i)
  {
    var client := s.table.clients[i];
    assert s.table.clients[i := client.(thread := None)][i := client.(status := FREE, thread := None)]
        == s.table.clients[i := client.(status := FREE, thread := None)];
  }

  lemma {:induction false} SlotIsFreed(s: State, p: Purpose, i: nat)
    requires Inv(s) && s.acceptor == Sweeping(p, i) && i < |s.table.clients|
    requires IsSwept(s.table.clients[i], p) && IsDone(s, s.table.clients[i].thread)
    ensures Goes(s, [Sweep, Join, Free], Freed(s, p, i)) && Inv(Freed(s, p, i))
  {
    FreeingSteps(s, p, i);
    ThreeSteps(s, Sweep, Join, Free);
  }

  /** One slot of a sweep. */
  lemma {:induction false} SlotIsSwept(s: State, p: Purpose, i: nat) returns (steps: seq<Step>, s': State)
    requires Inv(s) && AllDone(s, p) && s.acceptor == Sweeping(p, i) && i < |s.table.clients|
    ensures Goes(s, steps, s') && Inv(s') && AllDone(s', p) && s'.acceptor == Sweeping(p, i + 1)
    ensures Swept(s, s', p, i, i + 1) && s'.server == s.server
  {
    var client := s.table.clients[i];
    if IsSwept(client, p) {
      SlotIsFreed(s, p, i);
      steps := [Sweep, Join, Free];
      s' := Freed(s, p, i);
      OthersStayDone(s, s', p, i);
    } else {
      OneStep(s, Sweep);
      steps, s' := [Sweep], Next(s, Sweep);
    }
  }

  lemma {:induction false} OthersStayDone(s: State, s': State, p: Purpose, i: nat)
    requires Inv(s) && AllDone(s, p) && s.acceptor.Sweeping? && i < |s.table.clients| == |s'.table.clients|
    requires s.table.clients[i].thread.Some? && s'.workers == s.workers - {s.table.clients[i].thread.value}
    requires s'.table.clients[i].status == FREE
    requires forall j | 0 <= j < |s.table.clients| && j != i :: s'.table.clients[j] == s.table.clients[j]
    ensures AllDone(s', p)
  {
    forall j: nat | j < |s'.table.clients| && IsSwept(s'.table.clients[j], p)
      ensures IsDone(s', s'.table.clients[j].thread)
    {
      assert SlotStands(s, i) && SlotStands(s, j);
    }
  }

  /** A sweep comes to its end; after an accept the new socket is looked at then, and a shutdown is over. */
  lemma {:induction false} SweepEnds(s: State, p: Purpose, i: nat) returns (steps: seq<Step>, s': State)
    requires Inv(s) && AllDone(s, p) && s.acceptor == Sweeping(p, i) && i <= |s.table.clients|
    ensures Goes(s, steps, s') && Inv(s') && Swept(s, s', p, i, |s.table.clients|)
    ensures match p
            case Collect(fd) => s'.acceptor == Checking(fd) && s'.server == s.server
            case Shutdown => s'.acceptor == Finished && s'.server == STOPPED
    decreases |s.table.clients| - i
  {
    if i == |s.table.clients| {
      OneStep(s, Sweep);
      steps, s' := [Sweep], Next(s, Sweep);
    } else {
      var first, s1 := SlotIsSwept(s, p, i);
      var rest, s2 := SweepEnds(s1, p, i + 1);
      GoesFurther(s, first, s1, rest, s2);
      steps, s' := first + rest, s2;
    }
  }

  // ---- A connection that is accepted -----------------------------------------------------------------------------

  /** A slot that an accept can give away: it is free, or will be once it is swept. */
  ghost predicate HasRoom(s: State) {
    exists i: nat :: i < |s.table.clients| && s.table.clients[i].status in {FREE, TERMINATED}
  }

  /** After an accept the slots are swept. */
  lemma {:induction false} AcceptSweeps(s: State, fd: int) returns (steps: seq<Step>, s': State)
    requires Inv(s) && AllDone(s, Collect(fd)) && s.server.STARTED? && Enabled(s, Accept(fd))
    ensures Goes(s, steps, s') && Inv(s') && s'.acceptor == Registering(fd) && s'.server.STARTED?
    ensures s'.workers.Keys <= s.workers.Keys && s'.open == s.open + {fd}
    ensures HasRoom(s) <==> FirstFree(s'.table.clients) < |s'.table.clients|
  {
    OneStep(s, Accept(fd));
    var s1 := Next(s, Accept(fd));
    var sweep, s2 := SweepEnds(s1, Collect(fd), 0);
    OneStep(s2, Check);
    s' := Next(s2, Check);
    GoesFurther(s1, sweep, s2, [Check], s');
    GoesFurther(s, [Accept(fd)], s1, sweep + [Check], s');
    steps := [Accept(fd)] + (sweep + [Check]);
    if i: nat :| i < |s.table.clients| && s.table.clients[i].status in {FREE, TERMINATED} {
      assert s2.table.clients[i].status == FREE;
    } else {
      forall j: nat | j < |s2.table.clients| ensures s2.table.clients[j].status != FREE {
        assert s.table.clients[j].status !in {FREE, TERMINATED};
      }
    }
  }

  /** With room, a new worker gets the socket, in the slot that names it. */
  lemma {:induction false} AcceptIsServed(s: State, fd: int, t: Tid) returns (steps: seq<Step>, s': State, i: nat)
    requires Inv(s) && AllDone(s, Collect(fd)) && s.server.STARTED? && Enabled(s, Accept(fd)) && HasRoom(s) && t !in s.workers
    ensures Goes(s, steps, s') && Inv(s') && s'.acceptor == Looping && s'.server.STARTED?
    ensures i < |s'.table.clients| && s'.table.clients[i] == Client(ConnectionSlots.IDLE, fd, Some(t))
    ensures t in s'.workers && s'.workers[t] == Worker(i, -1, Begin)
  {
    var first, s1 := AcceptSweeps(s, fd);
    i := FirstFree(s1.table.clients);
    ThreeSteps(s1, Register, Spawn(t), Assign);
    s' := Next(Next(Next(s1, Register), Spawn(t)), Assign);
    GoesFurther(s, first, s1, [Register, Spawn(t), Assign], s');
    steps := first + [Register, Spawn(t), Assign];
  }

  /** Without, the socket is closed again. */
  lemma {:induction false} AcceptIsDropped(s: State, fd: int) returns (steps: seq<Step>, s': State)
    requires Inv(s) && AllDone(s, Collect(fd)) && s.server.STARTED? && Enabled(s, Accept(fd)) && !HasRoom(s)
    ensures Goes(s, steps, s') && Inv(s') && s'.acceptor == Looping && s'.server.STARTED?
    ensures s'.open == s.open
  {
    var first, s1 := AcceptSweeps(s, fd);
    OneStep(s1, Register);
    var s2 := Next(s1, Register);
    OneStep(s2, Drop);
    s' := Next(s2, Drop);
    GoesFurther(s1, [Register], s2, [Drop], s');
    GoesFurther(s, first, s1, [Register] + [Drop], s');
    steps := first + ([Register] + [Drop]);
  }

  // ---- A worker ----------------------------------------------------------------------------------------------------

  /** The worker, its slot and the open descriptors. */
  predicate Stands(s: State, t: Tid, w: Worker, client: Client, open: set<int>) {
    && t in s.workers && s.workers[t] == w && w.index < |s.table.clients| && s.table.clients[w.index] == client
    && s.open == open
  }

  lemma {:induction false} WorkGoes(s: State, t: Tid, go: bool, w: Worker, client: Client, open: set<int>) returns (s': State)
    requires Stands(s, t, w, client, open) && w.pc != Done
    ensures Goes(s, [Work(t, go)], s') && s'.server == s.server
    ensures Stands(s', t, Worker(w.index, NextSocket(w, client), NextPc(w.pc, s.server.STARTED?, go)),
                   client.(status := NextStatus(w.pc, client.status)), if w.pc == Closing then open - {w.socket} else open)
  {
    OneStep(s, Work(t, go));
    s' := Next(s, Work(t, go));
  }

  lemma {:induction false} ThreeGo(s: State, step: Step, s1: State, s2: State, s3: State)
    requires Goes(s, [step], s1) && Goes(s1, [step], s2) && Goes(s2, [step], s3)
    ensures Goes(s, [step, step, step], s3)
  {
    GoesFurther(s, [step], s1, [step], s2);
    GoesFurther(s, [step] + [step], s2, [step], s3);
    assert [step] + [step] + [step] == [step, step, step];
  }

  /** While packets come, a worker of a started server receives from its socket as RECEIVING and runs its task on it
      as RUNNING, and is then back where it can receive again. */
  lemma {:induction false} WorkerServes(s: State, t: Tid, w: Worker, client: Client)
      returns (receiving: State, running: State, back: State)
    requires Stands(s, t, w, client, s.open) && w.pc in {Begin, Testing} && s.server.STARTED?
    requires w.pc == Testing ==> w.socket == client.socket
    ensures Goes(s, (if w.pc == Begin then [Work(t, true)] else []) + [Work(t, true), Work(t, true)], receiving)
    ensures Stands(receiving, t, Worker(w.index, client.socket, Receiving), client.(status := RECEIVING), s.open)
    ensures Goes(receiving, [Work(t, true), Work(t, true), Work(t, true)], running)
    ensures Stands(running, t, Worker(w.index, client.socket, Running), client.(status := RUNNING), s.open)
    ensures Goes(running, [Work(t, true)], back)
    ensures Stands(back, t, Worker(w.index, client.socket, Testing), client.(status := RUNNING), s.open)
  {
    receiving := GetsReady(s, t, w, client);
    running := Receives(receiving, t, Worker(w.index, client.socket, Receiving), client.(status := RECEIVING));
    back := WorkGoes(running, t, true, Worker(w.index, client.socket, Running), client.(status := RUNNING), s.open);
  }

  lemma {:induction false} GetsReady(s: State, t: Tid, w: Worker, client: Client) returns (receiving: State)
    requires Stands(s, t, w, client, s.open) && w.pc in {Begin, Testing} && s.server.STARTED?
    requires w.pc == Testing ==> w.socket == client.socket
    ensures Goes(s, (if w.pc == Begin then [Work(t, true)] else []) + [Work(t, true), Work(t, true)], receiving)
    ensures Stands(receiving, t, Worker(w.index, client.socket, Receiving), client.(status := RECEIVING), s.open)
    ensures receiving.server.STARTED?
  {
    var go := Work(t, true);
    if w.pc == Begin {
      var s1 := WorkGoes(s, t, true, w, client, s.open);
      var s2 := WorkGoes(s1, t, true, Worker(w.index, client.socket, Testing), client, s.open);
      receiving := WorkGoes(s2, t, true, Worker(w.index, client.socket, BeforeReceive), client, s.open);
      ThreeGo(s, go, s1, s2, receiving);
      assert [go] + [go, go] == [go, go, go];
    } else {
      var s1 := WorkGoes(s, t, true, w, client, s.open);
      receiving := WorkGoes(s1, t, true, Worker(w.index, client.socket, BeforeReceive), client, s.open);
      GoesFurther(s, [go], s1, [go], receiving);
      assert [go] + [go] == [] + [go, go];
    }
  }

  lemma {:induction false} Receives(s: State, t: Tid, w: Worker, client: Client) returns (running: State)
    requires Stands(s, t, w, client, s.open) && w.pc == Receiving && s.server.STARTED?
    ensures Goes(s, [Work(t, true), Work(t, true), Work(t, true)], running) && running.server.STARTED?
    ensures Stands(running, t, w.(pc := Running), client.(status := RUNNING), s.open)
  {
    var s1 := WorkGoes(s, t, true, w, client, s.open);
    var s2 := WorkGoes(s1, t, true, w.(pc := Received), client, s.open);
    running := WorkGoes(s2, t, true, w.(pc := BeforeRun), client, s.open);
    ThreeGo(s, Work(t, true), s1, s2, running);
  }

  /** When a receive fails, or the server is stopping, the worker terminates its slot, closes its socket and is
      done. */
  lemma {:induction false} WorkerEnds(s: State, t: Tid, w: Worker, client: Client) returns (s': State)
    requires Stands(s, t, w, client, s.open) && w.socket == client.socket
    requires w.pc == Receiving || (w.pc == Testing && !s.server.STARTED?)
    ensures Goes(s, [Work(t, false), Work(t, false), Work(t, false), Work(t, false)], s')
    ensures Stands(s', t, w.(pc := Done), client.(status := TERMINATED), s.open - {w.socket})
  {
    var stop := Work(t, false);
    var s1 := WorkGoes(s, t, false, w, client, s.open);
    var s2 := WorkGoes(s1, t, false, w.(pc := Unwinding), client, s.open);
    var s3 := WorkGoes(s2, t, false, w.(pc := Terminating), client, s.open);
    s' := WorkGoes(s3, t, false, w.(pc := Closing), client.(status := TERMINATED), s.open);
    ThreeGo(s, stop, s1, s2, s3);
    GoesFurther(s, [stop, stop, stop], s3, [stop], s');
    assert [stop, stop, stop] + [stop] == [stop, stop, stop, stop];
  }

  /** stop() ends the accept loop: once all workers are done, the listener is closed, every slot is free and the
      server is stopped. */
  lemma {:induction false} StopEnds(s: State) returns (steps: seq<Step>, s': State)
    requires Inv(s) && AllDone(s, Shutdown) && s.server.STARTED? && s.acceptor.Looping?
    ensures Goes(s, [Stop] + steps, s') && Inv(s') && s'.server.STOPPED? && AllReleased(s')
  {
    ThreeSteps(s, Stop, Loop, CloseListener);
    var s1 := Next(Next(Next(s, Stop), Loop), CloseListener);
    var sweep, s2 := SweepEnds(s1, Shutdown, 0);
    GoesFurther(s, [Stop, Loop, CloseListener], s1, sweep, s2);
    assert [Stop, Loop, CloseListener] + sweep == [Stop] + ([Loop, CloseListener] + sweep);
    StoppedIsClean(s2);
    steps, s' := [Loop, CloseListener] + sweep, s2;
  }
}
