/** The protocol of Server/ServerTemplate.hpp as a state machine: the accept loop of start(), any number
    of workers running process(), a thread that may call stop(), and the rest of the process, which
    opens and closes descriptors of its own. A closed descriptor may come back at once. */
module ServerRuns {
  import opened Basics
  import opened ConnectionSlots

  datatype ServerStatus = IDLE_SERVER | STARTED | STOPPING | STOPPED

  /** What a sweep over the slots is for: garbageCollection after an accept, or stop(). */
  datatype Purpose = Collect(fd: int) | Shutdown

  /** Where the accept loop stands. */
  datatype Acceptor =
    | NotStarted
    | Looping
    | Accepting
    | Sweeping(purpose: Purpose, i: nat)
    | Joining(purpose: Purpose, i: nat)
    | Freeing(purpose: Purpose, i: nat)
    | Checking(fd: int)
    | Dropping(fd: int, leave: bool)
    | Registering(fd: int)
    | Spawning(i: nat)
    | Assigning(i: nat, t: Tid)
    | Leaving
    | Finished

  /** Where a worker stands in process(); from "Unwinding" on it is in the destructor. */
  datatype Pc = Begin | Testing | BeforeReceive | Receiving | Received | BeforeRun | Running | Unwinding
    | Terminating | Closing | Done

  datatype Worker = Worker(index: nat, socket: int, pc: Pc)

  datatype State = State(
    table: Table,
    workers: map<Tid, Worker>,
    acceptor: Acceptor,
    listener: Option<int>,
    server: ServerStatus,
    open: set<int>,
    others: set<int>)

  /** "go" is the choice left open: another packet, a successful receive. */
  datatype Step =
    | Start(fd: int) | Loop | AcceptFails | Accept(fd: int) | Sweep | Join | Free | Check | Drop | Register
    | Spawn(t: Tid) | Assign | CloseListener | Work(t: Tid, go: bool) | Stop | Open(fd: int) | Close(fd: int)

  function Init(slots: nat, others: set<int>): State {
    State(Table(seq(slots, _ => FRESH), 0), map[], NotStarted, None, IDLE_SERVER, others, others)
  }

  /** A sweep stops at the slots it must deallocate. */
  predicate Due(client: Client, purpose: Purpose) {
    if purpose.Collect? then client.status == TERMINATED else client.status != FREE
  }

  predicate IsDone(s: State, thread: Option<Tid>) {
    thread.Some? && thread.value in s.workers && s.workers[thread.value].pc == Done
  }

  /** Whether a step can be taken; join() waits for its thread, the descriptors of accept are new. */
  predicate Enabled(s: State, step: Step) {
    match step
    case Start(fd) => s.acceptor.NotStarted? && s.server.IDLE_SERVER? && fd >= 0 && fd !in s.open
    case Loop => s.acceptor.Looping?
    case AcceptFails => s.acceptor.Accepting?
    case Accept(fd) => s.acceptor.Accepting? && fd >= 0 && fd !in s.open
    case Sweep => s.acceptor.Sweeping?
    case Join => s.acceptor.Joining? && s.acceptor.i < |s.table.clients| && IsDone(s, s.table.clients[s.acceptor.i].thread)
    case Free => s.acceptor.Freeing? && s.acceptor.i < |s.table.clients|
    case Check => s.acceptor.Checking?
    case Drop => s.acceptor.Dropping?
    case Register => s.acceptor.Registering?
    case Spawn(t) => s.acceptor.Spawning? && t !in s.workers
    case Assign => s.acceptor.Assigning? && s.acceptor.i < |s.table.clients|
    case CloseListener => s.acceptor.Leaving? && s.listener.Some?
    case Work(t, _) => t in s.workers && s.workers[t].pc != Done && s.workers[t].index < |s.table.clients|
    case Stop => s.server.STARTED?
    case Open(fd) => fd >= 0 && fd !in s.open
    case Close(fd) => fd in s.others
  }

  /** One turn of the loop of a sweep. */
  function SweepOn(s: State): State
    requires s.acceptor.Sweeping?
  {
    var (p, i) := (s.acceptor.purpose, s.acceptor.i);
    if i >= |s.table.clients| then
      match p
      case Collect(fd) => s.(acceptor := Checking(fd))
      case Shutdown => s.(acceptor := Finished, server := STOPPED)
    else if Due(s.table.clients[i], p) then s.(acceptor := Joining(p, i))
    else s.(acceptor := Sweeping(p, i + 1))
  }

  function RegisterClient(s: State): State
    requires s.acceptor.Registering?
  {
    var i := FirstFree(s.table.clients);
    if i == |s.table.clients| then s.(acceptor := Dropping(s.acceptor.fd, false))
    else s.(table := Allocate(s.table, s.acceptor.fd), acceptor := Spawning(i))
  }

  function JoinWorker(s: State): State
    requires Enabled(s, Join)
  {
    var i := s.acceptor.i;
    s.(table := SetThread(s.table, i, None), workers := s.workers - {s.table.clients[i].thread.value},
       acceptor := Freeing(s.acceptor.purpose, i))
  }

  /** process(): "started" is isStarted(). */
  function NextPc(pc: Pc, started: bool, go: bool): Pc {
    match pc
    case Begin => Testing
    case Testing => if started && go then BeforeReceive else Unwinding
    case BeforeReceive => Receiving
    case Receiving => if go then Received else Unwinding
    case Received => if started then BeforeRun else Testing
    case BeforeRun => Running
    case Running => Testing
    case Unwinding => Terminating
    case Terminating => Closing
    case Closing => Done
    case Done => Done
  }

  /** The calls of setStatus. */
  function NextStatus(pc: Pc, status: Status): Status {
    match pc
    case BeforeReceive => RECEIVING
    case BeforeRun => RUNNING
    case Terminating => TERMINATED
    case _ => status
  }

  /** A worker reads its socket from the slot at the start and in the destructor. */
  function NextSocket(w: Worker, client: Client): int {
    if w.pc == Begin || w.pc == Unwinding then client.socket else w.socket
  }

  function WorkOn(s: State, t: Tid, go: bool): State
    requires Enabled(s, Work(t, go))
  {
    var w := s.workers[t];
    var client := s.table.clients[w.index];
    s.(table := SetStatus(s.table, w.index, NextStatus(w.pc, client.status)),
       workers := s.workers[t := Worker(w.index, NextSocket(w, client), NextPc(w.pc, s.server.STARTED?, go))],
       open := if w.pc == Closing then s.open - {w.socket} else s.open)
  }

  function Next(s: State, step: Step): State
    requires Enabled(s, step)
  {
    match step
    case Start(fd) => s.(acceptor := Looping, listener := Some(fd), server := STARTED, open := s.open + {fd})
    case Loop => s.(acceptor := if s.server.STARTED? then Accepting else Leaving)
    case AcceptFails => s.(acceptor := Looping)
    case Accept(fd) => s.(acceptor := Sweeping(Collect(fd), 0), open := s.open + {fd})
    case Sweep => SweepOn(s)
    case Join => JoinWorker(s)
    case Free => s.(table := Release(s.table, s.acceptor.i), acceptor := Sweeping(s.acceptor.purpose, s.acceptor.i + 1))
    case Check => s.(acceptor := if s.server.STARTED? then Registering(s.acceptor.fd) else Dropping(s.acceptor.fd, true))
    case Drop => s.(acceptor := if s.acceptor.leave then Leaving else Looping, open := s.open - {s.acceptor.fd})
    case Register => RegisterClient(s)
    case Spawn(t) => s.(workers := s.workers[t := Worker(s.acceptor.i, -1, Begin)], acceptor := Assigning(s.acceptor.i, t))
    case Assign => s.(table := SetThread(s.table, s.acceptor.i, Some(s.acceptor.t)), acceptor := Looping)
    case CloseListener => s.(acceptor := Sweeping(Shutdown, 0), listener := None, open := s.open - {s.listener.value})
    case Work(t, go) => WorkOn(s, t, go)
    case Stop => s.(server := STOPPING)
    case Open(fd) => s.(open := s.open + {fd}, others := s.others + {fd})
    case Close(fd) => s.(open := s.open - {fd}, others := s.others - {fd})
  }

  /** The assertions of the code a step runs, and that what it closes is open. */
  predicate Asserted(s: State, step: Step)
    requires Enabled(s, step)
  {
    var clients := s.table.clients;
    match step
    case Sweep =>
      var i := s.acceptor.i;
      i < |clients| && Due(clients[i], s.acceptor.purpose) ==> ValidIndex(s.table, i) && clients[i].thread.Some?
    case Drop => s.acceptor.fd >= 0 && s.acceptor.fd in s.open
    case Register =>
      var i := FirstFree(clients);
      && (i < |clients| ==> s.table.active < |clients|)
      && (i < |clients| || s.table.active == |clients|)
      && (i < |clients| ==> IndexOf(clients, s.acceptor.fd) == |clients|)
      // A handle that is assigned over must not hold a thread
      && (i < |clients| ==> clients[i].thread == None)
    case Spawn(t) => ValidIndex(s.table, s.acceptor.i)
    case Assign => ValidIndex(s.table, s.acceptor.i) && clients[s.acceptor.i].thread == None
    case CloseListener => s.listener.value >= 0 && s.listener.value in s.open
    case Work(t, _) =>
      var w := s.workers[t];
      && (w.pc in {Begin, BeforeReceive, BeforeRun, Running, Unwinding, Terminating} ==> ValidIndex(s.table, w.index))
      && (w.pc == Running ==> clients[w.index].socket == w.socket)
      && (w.pc == Closing ==> w.socket >= 0 && w.socket in s.open)
    case _ => true
  }

  // ---- The invariant ------------------------------------------------------------------------------

  /** The thread of slot "i": behind its handle, or started and not yet assigned to it. */
  function Handle(s: State, i: nat): Option<Tid>
    requires i < |s.table.clients|
  {
    if s.acceptor.Assigning? && s.acceptor.i == i then Some(s.acceptor.t) else s.table.clients[i].thread
  }

  /** A slot without a thread is free, about to get one, or just joined. */
  ghost predicate SlotStands(s: State, i: nat)
    requires i < |s.table.clients|
  {
    var client := s.table.clients[i];
    match Handle(s, i)
    case Some(t) => t in s.workers && s.workers[t].index == i
    case None =>
      || (client.status == FREE && s.acceptor != Spawning(i) && !(s.acceptor.Freeing? && s.acceptor.i == i))
      || (client.status == IDLE && s.acceptor == Spawning(i))
      || (client.status == TERMINATED && s.acceptor.Freeing? && s.acceptor.i == i)
  }

  ghost predicate WorkerStands(s: State, t: Tid)
    requires t in s.workers
  {
    var w := s.workers[t];
    && w.index < |s.table.clients| && Handle(s, w.index) == Some(t)
    && var client := s.table.clients[w.index];
    && client.status != FREE && (client.status == TERMINATED <==> w.pc in {Closing, Done})
    && (w.pc != Begin ==> w.socket == client.socket)
  }

  /** Every worker works for one slot in use, and every slot in use has its worker. */
  ghost predicate Threads(s: State) {
    && Counted(s.table)
    && (forall i: nat | i < |s.table.clients| :: SlotStands(s, i))
    && (forall t | t in s.workers :: WorkerStands(s, t))
    && (s.acceptor.Assigning? ==> s.acceptor.i < |s.table.clients| && s.table.clients[s.acceptor.i].thread == None)
    && (s.acceptor.Spawning? || s.acceptor.Freeing? ==>
          s.acceptor.i < |s.table.clients| && s.table.clients[s.acceptor.i].thread == None
          && s.table.clients[s.acceptor.i].status != FREE)
    && (s.acceptor.Joining? ==> s.acceptor.i < |s.table.clients| && s.table.clients[s.acceptor.i].thread.Some?)
  }

  /** The slot has taken a descriptor that is not closed yet. */
  ghost predicate Holds(s: State, i: nat)
    requires i < |s.table.clients|
  {
    match Handle(s, i)
    case None => s.acceptor == Spawning(i)
    case Some(t) => t in s.workers && s.workers[t].pc != Done
  }

  /** The descriptor the accept loop has in hand. */
  function InHand(a: Acceptor): set<int> {
    match a
    case Sweeping(Collect(fd), _) => {fd}
    case Joining(Collect(fd), _) => {fd}
    case Freeing(Collect(fd), _) => {fd}
    case Checking(fd) => {fd}
    case Dropping(fd, _) => {fd}
    case Registering(fd) => {fd}
    case _ => {}
  }

  function Listening(s: State): set<int> { if s.listener.Some? then {s.listener.value} else {} }

  ghost function Held(s: State): set<int> {
    set i: nat | i < |s.table.clients| && Holds(s, i) :: s.table.clients[i].socket
  }

  /** Every open descriptor belongs to exactly one: the rest of the process, the listener, the accept
      loop, or the one slot that holds it. */
  ghost predicate Descriptors(s: State) {
    && s.open == s.others + Listening(s) + InHand(s.acceptor) + Held(s)
    && s.others !! Listening(s) && s.others !! InHand(s.acceptor) && s.others !! Held(s)
    && Listening(s) !! InHand(s.acceptor) && Listening(s) !! Held(s) && InHand(s.acceptor) !! Held(s)
    && (forall i: nat, j: nat | i < j < |s.table.clients| && Holds(s, i) && Holds(s, j) ::
          s.table.clients[i].socket != s.table.clients[j].socket)
    && (forall fd | fd in s.open :: fd >= 0)
  }

  /** The slots that the sweep after an accept has not passed yet. */
  function Unswept(a: Acceptor): nat {
    if a.Sweeping? || a.Joining? || a.Freeing? then a.i else 0
  }

  /** While a descriptor is in hand, the slots that still name it are terminated and will be swept;
      after the sweep there is none. */
  ghost predicate Stale(s: State) {
    forall i: nat, fd | i < |s.table.clients| && fd in InHand(s.acceptor) && Registers(s.table.clients[i], fd) ::
      s.table.clients[i].status == TERMINATED && i >= Unswept(s.acceptor) && !s.acceptor.Checking? && !s.acceptor.Registering?
  }

  /** The status of the server follows the accept loop, and a shutdown leaves free slots behind. */
  ghost predicate Phases(s: State) {
    && (s.server.IDLE_SERVER? <==> s.acceptor.NotStarted?)
    && (s.server.STOPPED? <==> s.acceptor.Finished?)
    && (InShutdown(s.acceptor) || (s.acceptor.Dropping? && s.acceptor.leave) ==> !s.server.STARTED?)
    && (s.listener.Some? <==> !s.acceptor.NotStarted? && !s.acceptor.Finished? && !(IsSweep(s.acceptor) && s.acceptor.purpose.Shutdown?))
    && (IsSweep(s.acceptor) && s.acceptor.purpose.Shutdown? ==>
          forall i: nat | i < s.acceptor.i && i < |s.table.clients| :: s.table.clients[i].status == FREE)
    && (s.acceptor.Finished? ==> forall i: nat | i < |s.table.clients| :: s.table.clients[i].status == FREE)
  }

  predicate IsSweep(a: Acceptor) { a.Sweeping? || a.Joining? || a.Freeing? }

  predicate InShutdown(a: Acceptor) { a.Leaving? || (IsSweep(a) && a.purpose.Shutdown?) }

  ghost predicate Inv(s: State) {
    Threads(s) && Descriptors(s) && Stale(s) && Phases(s)
  }

  // ---- Assertions ---------------------------------------------------------------------------------

  /** No assertion fires, and no step closes a descriptor that is not open. */
  lemma {:induction false} StepIsSafe(s: State, step: Step)
    requires Inv(s) && Enabled(s, step)
    ensures Asserted(s, step)
  {
    match step
    case Sweep => if s.acceptor.i < |s.table.clients| { assert SlotStands(s, s.acceptor.i); }
    case Register =>
      var i := FirstFree(s.table.clients);
      FullWhenNoneIsFree(s.table.clients);
      if i < |s.table.clients| { assert SlotStands(s, i); }
    case Assign =>
      assert SlotStands(s, s.acceptor.i);
      assert WorkerStands(s, s.acceptor.t);
    case Work(t, go) =>
      assert WorkerStands(s, t);
      var i := s.workers[t].index;
      if s.workers[t].pc == Closing { assert Holds(s, i) && s.table.clients[i].socket in Held(s); }
    case _ =>
  }

  // ---- Every step keeps the invariant --------------------------------------------------------------

  /** The accept loop is at none of the points where a slot is in between. */
  predicate Quiet(a: Acceptor) { !a.Spawning? && !a.Freeing? && !a.Assigning? }

  /** Steps that leave slots and workers alone. */
  lemma {:induction false} QuietKeepsThreads(s: State, s': State)
    requires Threads(s) && s'.table == s.table && s'.workers == s.workers
    requires s'.acceptor == s.acceptor || (Quiet(s.acceptor) && Quiet(s'.acceptor))
    requires s'.acceptor.Joining? ==> s'.acceptor.i < |s.table.clients| && s.table.clients[s'.acceptor.i].thread.Some?
    ensures Threads(s') && Held(s') == Held(s)
    ensures forall i: nat | i < |s.table.clients| :: Holds(s', i) == Holds(s, i)
  {
    forall i: nat | i < |s'.table.clients| ensures SlotStands(s', i) && Holds(s', i) == Holds(s, i) {
      assert SlotStands(s, i);
    }
    forall t | t in s'.workers ensures WorkerStands(s', t) {
      assert WorkerStands(s, t);
    }
  }

  lemma {:induction false} StartKeeps(s: State, fd: int)
    requires Inv(s) && Enabled(s, Start(fd))
    ensures Inv(Next(s, Start(fd)))
  {
    QuietKeepsThreads(s, Next(s, Start(fd)));
  }

  lemma {:induction false} LoopKeeps(s: State)
    requires Inv(s) && Enabled(s, Loop)
    ensures Inv(Next(s, Loop))
  {
    QuietKeepsThreads(s, Next(s, Loop));
  }

  lemma {:induction false} AcceptFailsKeeps(s: State)
    requires Inv(s) && Enabled(s, AcceptFails)
    ensures Inv(Next(s, AcceptFails))
  {
    QuietKeepsThreads(s, Next(s, AcceptFails));
  }

  lemma {:induction false} HeldIsOpen(s: State, i: nat)
    requires Inv(s) && i < |s.table.clients|
    ensures Holds(s, i) ==> s.table.clients[i].socket in s.open
  {
    if Holds(s, i) { assert s.table.clients[i].socket in Held(s); }
  }

  /** A slot that names a descriptor that is not open has closed it, and was terminated before. */
  lemma {:induction false} ClosedIsTerminated(s: State, i: nat)
    requires Inv(s) && i < |s.table.clients| && s.table.clients[i].socket !in s.open
    ensures s.table.clients[i].status in {FREE, TERMINATED}
  {
    HeldIsOpen(s, i);
    assert SlotStands(s, i);
    if Handle(s, i).Some? { assert WorkerStands(s, Handle(s, i).value); }
  }

  lemma {:induction false} AcceptKeeps(s: State, fd: int)
    requires Inv(s) && Enabled(s, Accept(fd))
    ensures Inv(Next(s, Accept(fd)))
  {
    var s' := Next(s, Accept(fd));
    QuietKeepsThreads(s, s');
    forall i: nat | i < |s.table.clients| && Registers(s.table.clients[i], fd)
      ensures s.table.clients[i].status == TERMINATED
    {
      ClosedIsTerminated(s, i);
    }
  }

  lemma {:induction false} SweepKeeps(s: State)
    requires Inv(s) && Enabled(s, Sweep)
    ensures Inv(Next(s, Sweep))
  {
    var i, s' := s.acceptor.i, Next(s, Sweep);
    if i < |s.table.clients| { assert SlotStands(s, i); }
    QuietKeepsThreads(s, s');
    assert Descriptors(s');
    SweepPasses(s);
  }

  /** A slot that a sweep passes is not one it must free. */
  lemma {:induction false} SweepPasses(s: State)
    requires Inv(s) && Enabled(s, Sweep)
    ensures Stale(Next(s, Sweep)) && Phases(Next(s, Sweep))
  {
  }

  lemma {:induction false} CheckKeeps(s: State)
    requires Inv(s) && Enabled(s, Check)
    ensures Inv(Next(s, Check))
  {
    QuietKeepsThreads(s, Next(s, Check));
  }

  lemma {:induction false} DropKeeps(s: State)
    requires Inv(s) && Enabled(s, Drop)
    ensures Inv(Next(s, Drop))
  {
    QuietKeepsThreads(s, Next(s, Drop));
  }

  lemma {:induction false} CloseListenerKeeps(s: State)
    requires Inv(s) && Enabled(s, CloseListener)
    ensures Inv(Next(s, CloseListener))
  {
    QuietKeepsThreads(s, Next(s, CloseListener));
  }

  /** stop() and the rest of the process. */
  lemma {:induction false} OutsideKeeps(s: State, step: Step)
    requires Inv(s) && Enabled(s, step) && (step.Stop? || step.Open? || step.Close?)
    ensures Inv(Next(s, step))
  {
    QuietKeepsThreads(s, Next(s, step));
  }

  // ---- Steps on one slot ---------------------------------------------------------------------------

  /** If the accept loop is between two states of a slot, the slot is "i". */
  predicate Concerns(a: Acceptor, i: nat) {
    (a.Spawning? || a.Freeing? || a.Assigning? || a.Joining?) ==> a.i == i
  }

  /** A step on slot "i" and its worker does not matter to the others. */
  lemma {:induction false} OtherSlots(s: State, s': State, i: nat)
    requires Threads(s) && i < |s.table.clients| == |s'.table.clients|
    requires s'.table.clients == s.table.clients[i := s'.table.clients[i]]
    requires s'.acceptor == s.acceptor || (Concerns(s.acceptor, i) && Concerns(s'.acceptor, i))
    requires forall t | t in s.workers && s.workers[t].index != i :: t in s'.workers && s'.workers[t] == s.workers[t]
    requires forall t | t in s'.workers && s'.workers[t].index != i :: t in s.workers && s'.workers[t] == s.workers[t]
    ensures forall j: nat | j < |s.table.clients| && j != i :: SlotStands(s', j) && Holds(s', j) == Holds(s, j)
    ensures forall t | t in s'.workers && s'.workers[t].index != i :: WorkerStands(s', t)
  {
    forall j: nat | j < |s.table.clients| && j != i ensures SlotStands(s', j) && Holds(s', j) == Holds(s, j) {
      assert SlotStands(s, j);
    }
    forall t | t in s'.workers && s'.workers[t].index != i ensures WorkerStands(s', t) {
      assert WorkerStands(s, t);
    }
  }

  lemma {:induction false} OthersHold(s: State, s': State, i: nat)
    requires i < |s.table.clients| == |s'.table.clients|
    requires s'.table.clients == s.table.clients[i := s'.table.clients[i]]
    requires forall j: nat | j < |s.table.clients| && j != i :: Holds(s', j) == Holds(s, j)
    ensures !Holds(s, i) && !Holds(s', i) ==> Held(s') == Held(s)
    ensures Holds(s, i) && Holds(s', i) && s'.table.clients[i].socket == s.table.clients[i].socket ==> Held(s') == Held(s)
    ensures !Holds(s, i) && Holds(s', i) ==> Held(s') == Held(s) + {s'.table.clients[i].socket}
  {
    forall fd ensures fd in Held(s') ==> fd in Held(s) || (Holds(s', i) && fd == s'.table.clients[i].socket) {
    }
    forall fd ensures fd in Held(s) ==> fd in Held(s') || (Holds(s, i) && fd == s.table.clients[i].socket) {
    }
  }

  lemma {:induction false} JoinKeepsThreads(s: State)
    requires Inv(s) && Enabled(s, Join)
    ensures Threads(Next(s, Join)) && Held(Next(s, Join)) == Held(s)
    ensures forall j: nat | j < |s.table.clients| :: Holds(Next(s, Join), j) == Holds(s, j)
  {
    var i, s' := s.acceptor.i, Next(s, Join);
    var t := s.table.clients[i].thread.value;
    assert SlotStands(s, i) && WorkerStands(s, t);
    PutCounts(s.table, i, s'.table.clients[i]);
    forall u | u in s.workers && s.workers[u].index == i ensures u == t {
      assert WorkerStands(s, u);
    }
    OtherSlots(s, s', i);
    OthersHold(s, s', i);
  }

  lemma {:induction false} JoinKeeps(s: State)
    requires Inv(s) && Enabled(s, Join)
    ensures Inv(Next(s, Join))
  {
    JoinKeepsThreads(s);
  }

  lemma {:induction false} FreeKeeps(s: State)
    requires Inv(s) && Enabled(s, Free)
    ensures Inv(Next(s, Free))
  {
    var i, s' := s.acceptor.i, Next(s, Free);
    assert SlotStands(s, i);
    ReleaseCounts(s.table, i);
    forall u | u in s.workers ensures s.workers[u].index != i {
      assert WorkerStands(s, u);
    }
    OtherSlots(s, s', i);
    OthersHold(s, s', i);
  }

  lemma {:induction false} RegisterKeeps(s: State)
    requires Inv(s) && Enabled(s, Register)
    ensures Inv(Next(s, Register))
  {
    var i, s' := FirstFree(s.table.clients), Next(s, Register);
    if i == |s.table.clients| {
      QuietKeepsThreads(s, s');
    } else {
      assert SlotStands(s, i);
      AllocateCounts(s.table, s.acceptor.fd);
      forall u | u in s.workers ensures s.workers[u].index != i {
        assert WorkerStands(s, u);
      }
      OtherSlots(s, s', i);
      OthersHold(s, s', i);
    }
  }

  lemma {:induction false} SpawnKeepsThreads(s: State, t: Tid)
    requires Inv(s) && Enabled(s, Spawn(t))
    ensures Threads(Next(s, Spawn(t))) && Held(Next(s, Spawn(t))) == Held(s)
    ensures forall j: nat | j < |s.table.clients| :: Holds(Next(s, Spawn(t)), j) == Holds(s, j)
  {
    var i, s' := s.acceptor.i, Next(s, Spawn(t));
    assert SlotStands(s, i);
    forall u | u in s.workers ensures s.workers[u].index != i {
      assert WorkerStands(s, u);
    }
    OtherSlots(s, s', i);
    OthersHold(s, s', i);
  }

  lemma {:induction false} SpawnKeeps(s: State, t: Tid)
    requires Inv(s) && Enabled(s, Spawn(t))
    ensures Inv(Next(s, Spawn(t)))
  {
    SpawnKeepsThreads(s, t);
  }

  lemma {:induction false} AssignKeepsThreads(s: State)
    requires Inv(s) && Enabled(s, Assign)
    ensures Threads(Next(s, Assign)) && Held(Next(s, Assign)) == Held(s)
    ensures forall j: nat | j < |s.table.clients| :: Holds(Next(s, Assign), j) == Holds(s, j)
  {
    var i, s' := s.acceptor.i, Next(s, Assign);
    var t := s.acceptor.t;
    assert SlotStands(s, i) && WorkerStands(s, t);
    PutCounts(s.table, i, s'.table.clients[i]);
    forall u | u in s.workers && s.workers[u].index == i ensures u == t {
      assert WorkerStands(s, u);
    }
    OtherSlots(s, s', i);
    OthersHold(s, s', i);
  }

  lemma {:induction false} AssignKeeps(s: State)
    requires Inv(s) && Enabled(s, Assign)
    ensures Inv(Next(s, Assign))
  {
    AssignKeepsThreads(s);
  }

  // ---- Steps of a worker ---------------------------------------------------------------------------

  /** What any step of worker "t" does: its slot may get another status, and nothing else in the table
      changes; it is terminated from the moment before its descriptor is closed. */
  ghost predicate OwnStep(s: State, s': State, t: Tid) {
    && t in s.workers && t in s'.workers
    && var w, w' := s.workers[t], s'.workers[t];
    && w.index < |s.table.clients| == |s'.table.clients|
    && var client, client' := s.table.clients[w.index], s'.table.clients[w.index];
    && s' == s.(table := Put(s.table, w.index, client'), workers := s.workers[t := w'], open := s'.open)
    && w'.index == w.index && client' == client.(status := client'.status)
    && client'.status != FREE && (client'.status == TERMINATED <==> w'.pc in {Closing, Done})
    && w'.socket == client.socket && w'.pc != Begin && (w'.pc == Done <==> w.pc == Closing) && w.pc != Done
    && s'.open == if w'.pc == Done then s.open - {client.socket} else s.open
  }

  lemma {:induction false} StatusFollowsPc(pc: Pc, status: Status, started: bool, go: bool)
    requires pc != Done && status != FREE && (status == TERMINATED <==> pc == Closing)
    ensures var pc', status' := NextPc(pc, started, go), NextStatus(pc, status);
            && status' != FREE && (status' == TERMINATED <==> pc' in {Closing, Done})
            && pc' != Begin && (pc' == Done <==> pc == Closing)
  {
  }

  lemma {:induction false} WorkIsOwnStep(s: State, t: Tid, go: bool)
    requires Inv(s) && Enabled(s, Work(t, go))
    ensures OwnStep(s, WorkOn(s, t, go), t)
  {
    assert WorkerStands(s, t);
    var w := s.workers[t];
    StatusFollowsPc(w.pc, s.table.clients[w.index].status, s.server.STARTED?, go);
  }

  lemma {:induction false} WorkKeepsThreads(s: State, s': State, t: Tid)
    requires Inv(s) && OwnStep(s, s', t)
    ensures Threads(s')
    ensures Holds(s, s.workers[t].index) && (Holds(s', s.workers[t].index) <==> s.workers[t].pc != Closing)
    ensures forall j: nat | j < |s.table.clients| && j != s.workers[t].index :: Holds(s', j) == Holds(s, j)
  {
    var i := s.workers[t].index;
    assert WorkerStands(s, t) && SlotStands(s, i);
    forall u | u in s.workers && s.workers[u].index == i ensures u == t {
      assert WorkerStands(s, u);
    }
    PutCounts(s.table, i, s'.table.clients[i]);
    OtherSlots(s, s', i);
    assert WorkerStands(s', t) && SlotStands(s', i);
  }

  lemma {:induction false} WorkKeepsStale(s: State, s': State, t: Tid)
    requires Inv(s) && OwnStep(s, s', t)
    ensures Stale(s') && Phases(s')
  {
    assert WorkerStands(s, t);
    assert s.table.clients[s.workers[t].index].socket in Held(s) by { assert Holds(s, s.workers[t].index); }
  }

  lemma {:induction false} CloseReleases(s: State, s': State, i: nat)
    requires Descriptors(s) && i < |s.table.clients| == |s'.table.clients|
    requires forall j: nat | j < |s.table.clients| :: s'.table.clients[j].socket == s.table.clients[j].socket
    requires Holds(s, i) && !Holds(s', i)
    requires forall j: nat | j < |s.table.clients| && j != i :: Holds(s', j) == Holds(s, j)
    ensures Held(s') == Held(s) - {s.table.clients[i].socket} && s.table.clients[i].socket in Held(s)
  {
    var fd := s.table.clients[i].socket;
    assert fd in Held(s);
    forall f ensures f in Held(s') <==> f in Held(s) && f != fd {
      if f in Held(s') {
        var j: nat :| j < |s.table.clients| && Holds(s', j) && f == s'.table.clients[j].socket;
        assert Holds(s, j) && j != i;
      }
    }
  }

  lemma {:induction false} WorkKeeps(s: State, t: Tid, go: bool)
    requires Inv(s) && Enabled(s, Work(t, go))
    ensures Inv(Next(s, Work(t, go)))
  {
    var i, s' := s.workers[t].index, Next(s, Work(t, go));
    WorkIsOwnStep(s, t, go);
    OwnStepKeeps(s, s', t);
  }

  lemma {:induction false} OwnStepKeeps(s: State, s': State, t: Tid)
    requires Inv(s) && OwnStep(s, s', t)
    ensures Inv(s')
  {
    var i := s.workers[t].index;
    WorkKeepsThreads(s, s', t);
    WorkKeepsStale(s, s', t);
    if s.workers[t].pc == Closing {
      assert WorkerStands(s, t);
      CloseReleases(s, s', i);
    } else {
      OthersHold(s, s', i);
    }
    WorkKeepsDescriptors(s, s', i);
  }

  lemma {:induction false} WorkKeepsDescriptors(s: State, s': State, i: nat)
    requires Descriptors(s) && i < |s.table.clients| == |s'.table.clients|
    requires s'.table.clients == s.table.clients[i := s'.table.clients[i]]
    requires s'.table.clients[i].socket == s.table.clients[i].socket && Holds(s, i)
    requires s'.acceptor == s.acceptor && s'.listener == s.listener && s'.others == s.others
    requires forall j: nat | j < |s.table.clients| && j != i :: Holds(s', j) == Holds(s, j)
    requires if Holds(s', i) then Held(s') == Held(s) && s'.open == s.open
             else Held(s') == Held(s) - {s.table.clients[i].socket} && s'.open == s.open - {s.table.clients[i].socket}
    ensures Descriptors(s')
  {
    assert s.table.clients[i].socket in Held(s);
  }

  // ---- Runs ------------------------------------------------------------------------------------------

  lemma {:induction false} InitHolds(slots: nat, others: set<int>)
    requires forall fd | fd in others :: fd >= 0
    ensures Inv(Init(slots, others))
  {
    NoneInUse(Init(slots, others).table.clients);
  }

  lemma {:induction false} StepKeeps(s: State, step: Step)
    requires Inv(s) && Enabled(s, step)
    ensures Inv(Next(s, step))
  {
    match step
    case Start(fd) => StartKeeps(s, fd);
    case Loop => LoopKeeps(s);
    case AcceptFails => AcceptFailsKeeps(s);
    case Accept(fd) => AcceptKeeps(s, fd);
    case Sweep => SweepKeeps(s);
    case Join => JoinKeeps(s);
    case Free => FreeKeeps(s);
    case Check => CheckKeeps(s);
    case Drop => DropKeeps(s);
    case Register => RegisterKeeps(s);
    case Spawn(t) => SpawnKeeps(s, t);
    case Assign => AssignKeeps(s);
    case CloseListener => CloseListenerKeeps(s);
    case Work(t, go) => WorkKeeps(s, t, go);
    case _ => OutsideKeeps(s, step);
  }

  /** An execution: every state follows from the one before by a step that could be taken. */
  predicate IsRun(run: seq<State>, steps: seq<Step>) {
    && |run| == |steps| + 1
    && forall k | 0 <= k < |steps| :: Enabled(run[k], steps[k]) && run[k + 1] == Next(run[k], steps[k])
  }

  lemma {:induction false} RunKeeps(run: seq<State>, steps: seq<Step>, slots: nat, others: set<int>, k: nat)
    requires IsRun(run, steps) && run[0] == Init(slots, others) && k <= |steps|
    requires forall fd | fd in others :: fd >= 0
    ensures Inv(run[k])
  {
    if k == 0 {
      InitHolds(slots, others);
    } else {
      RunKeeps(run, steps, slots, others, k - 1);
      StepKeeps(run[k - 1], steps[k - 1]);
    }
  }

  /** What the invariant means at every moment of every interleaving. */
  ghost predicate Sound(s: State) {
    // the count of active connections is right
    && s.table.active == InUse(s.table.clients)
    // no slot is freed, or given away again, while its worker runs, and no two workers share a slot
    && (forall t | t in s.workers :: ValidIndex(s.table, s.workers[t].index))
    && (forall t, u | t in s.workers && u in s.workers && t != u :: s.workers[t].index != s.workers[u].index)
    // a worker that is at work is the only one that holds its open descriptor
    && (forall t | t in s.workers && s.workers[t].pc !in {Begin, Done} ::
          s.workers[t].socket in s.open && s.workers[t].socket !in s.others + Listening(s) + InHand(s.acceptor))
    && (forall t, u | t in s.workers && u in s.workers && t != u
                      && s.workers[t].pc !in {Begin, Done} && s.workers[u].pc !in {Begin, Done} ::
          s.workers[t].socket != s.workers[u].socket)
    // a stopped server has joined all its workers and freed all its slots and descriptors
    && (s.server.STOPPED? ==> AllReleased(s))
  }

  ghost predicate AllReleased(s: State) {
    && s.workers == map[] && s.table.active == 0 && s.open == s.others
    && forall i: nat | i < |s.table.clients| :: s.table.clients[i].status == FREE && s.table.clients[i].thread == None
  }

  lemma {:induction false} WorkerHolds(s: State, t: Tid)
    requires Inv(s) && t in s.workers && s.workers[t].pc !in {Begin, Done}
    ensures s.workers[t].socket in s.open && s.workers[t].socket !in s.others + Listening(s) + InHand(s.acceptor)
    ensures s.workers[t].index < |s.table.clients| && Holds(s, s.workers[t].index)
  {
    assert WorkerStands(s, t);
    assert Holds(s, s.workers[t].index) && s.workers[t].socket in Held(s);
  }

  lemma {:induction false} WorkersDiffer(s: State, t: Tid, u: Tid)
    requires Inv(s) && t in s.workers && u in s.workers && t != u
    ensures s.workers[t].index != s.workers[u].index
    ensures s.workers[t].pc !in {Begin, Done} && s.workers[u].pc !in {Begin, Done} ==>
            s.workers[t].socket != s.workers[u].socket
  {
    assert WorkerStands(s, t) && WorkerStands(s, u);
    if s.workers[t].pc !in {Begin, Done} && s.workers[u].pc !in {Begin, Done} {
      WorkerHolds(s, t);
      WorkerHolds(s, u);
    }
  }

  lemma {:induction false} WorkerIsValid(s: State, t: Tid)
    requires Inv(s)
    ensures t in s.workers ==> ValidIndex(s.table, s.workers[t].index)
  {
    if t in s.workers { assert WorkerStands(s, t); }
  }

  lemma {:induction false} StoppedIsClean(s: State)
    requires Inv(s) && s.server.STOPPED?
    ensures AllReleased(s)
  {
    forall t ensures t !in s.workers { WorkerIsValid(s, t); }
    NoneInUse(s.table.clients);
    forall i: nat | i < |s.table.clients| ensures !Holds(s, i) && s.table.clients[i].thread == None {
      assert SlotStands(s, i);
    }
  }

  lemma {:induction false} InvIsSound(s: State)
    requires Inv(s)
    ensures Sound(s)
  {
    forall t | t in s.workers ensures ValidIndex(s.table, s.workers[t].index) { WorkerIsValid(s, t); }
    forall t | t in s.workers && s.workers[t].pc !in {Begin, Done}
      ensures s.workers[t].socket in s.open && s.workers[t].socket !in s.others + Listening(s) + InHand(s.acceptor)
    {
      WorkerHolds(s, t);
    }
    forall t, u | t in s.workers && u in s.workers && t != u
      ensures s.workers[t].index != s.workers[u].index
      ensures s.workers[t].pc !in {Begin, Done} && s.workers[u].pc !in {Begin, Done} ==>
              s.workers[t].socket != s.workers[u].socket
    {
      WorkersDiffer(s, t, u);
    }
    if s.server.STOPPED? { StoppedIsClean(s); }
  }

  /** In every interleaving, every state is sound, and no step fails an assertion, finds its socket
      registered already, or closes a descriptor that is not open. */
  lemma {:induction false} RunIsSafe(run: seq<State>, steps: seq<Step>, slots: nat, others: set<int>, k: nat)
    requires IsRun(run, steps) && run[0] == Init(slots, others) && k <= |steps|
    requires forall fd | fd in others :: fd >= 0
    ensures Sound(run[k])
    ensures k < |steps| ==> Asserted(run[k], steps[k])
  {
    RunKeeps(run, steps, slots, others, k);
    InvIsSound(run[k]);
    if k < |steps| { StepIsSafe(run[k], steps[k]); }
  }

  /** The accept loop never waits for ever by itself: when it is in join(), the worker it waits for is
      done or can take a step; elsewhere it can take one of its own. */
  lemma {:induction false} AcceptorIsNotStuck(s: State, unused: Tid) returns (step: Step)
    requires Inv(s) && !s.acceptor.Accepting? && !s.acceptor.NotStarted? && !s.acceptor.Finished?
    requires unused !in s.workers
    ensures Enabled(s, step)
    ensures step.Work? ==> s.acceptor.Joining? && s.table.clients[s.acceptor.i].thread == Some(step.t)
    ensures !step.Stop? && !step.Open? && !step.Close?
  {
    match s.acceptor
    case Looping => step := Loop;
    case Sweeping(_, _) => step := Sweep;
    case Joining(_, i) =>
      assert SlotStands(s, i);
      var t := s.table.clients[i].thread.value;
      assert WorkerStands(s, t);
      if s.workers[t].pc == Done { step := Join; } else { step := Work(t, true); }
    case Freeing(_, _) => step := Free;
    case Checking(_) => step := Check;
    case Dropping(_, _) => step := Drop;
    case Registering(_) => step := Register;
    case Spawning(_) => step := Spawn(unused);
    case Assigning(_, _) => step := Assign;
    case Leaving => step := CloseListener;
  }
}
