/** The table of Server/ConnectionManager.hpp on values: what its operations do to the clients and to
    the count of active connections. */
module ConnectionSlots {
  import opened Basics

  datatype Status = FREE | IDLE | RECEIVING | RUNNING | TERMINATED

  type Tid = nat

  /** A slot; "thread" is the joinable thread behind its handle. */
  datatype Client = Client(status: Status, socket: int, thread: Option<Tid>)

  datatype Table = Table(clients: seq<Client>, active: int)

  const FRESH := Client(FREE, -1, None)

  /** getFreeClientNoLock: the first free slot, or the number of slots. */
  function FirstFree(clients: seq<Client>): (i: nat)
    ensures i <= |clients| && (i < |clients| ==> clients[i].status == FREE)
    ensures forall j | 0 <= j < i :: clients[j].status != FREE
  {
    if clients == [] || clients[0].status == FREE then 0 else 1 + FirstFree(clients[1..])
  }

  predicate Registers(client: Client, socket: int) {
    client.status != FREE && client.socket == socket
  }

  /** getIndex: the first slot in use with that socket, or the number of slots. */
  function IndexOf(clients: seq<Client>, socket: int): (i: nat)
    ensures i <= |clients| && (i < |clients| ==> Registers(clients[i], socket))
    ensures forall j | 0 <= j < i :: !Registers(clients[j], socket)
  {
    if clients == [] || Registers(clients[0], socket) then 0 else 1 + IndexOf(clients[1..], socket)
  }

  /** The number of slots that are not free. */
  function InUse(clients: seq<Client>): (n: nat)
    ensures n <= |clients|
  {
    if clients == [] then 0 else (if clients[0].status == FREE then 0 else 1) + InUse(clients[1..])
  }

  function Weight(client: Client): nat { if client.status == FREE then 0 else 1 }

  lemma {:induction false} InUseUpdate(clients: seq<Client>, i: nat, client: Client)
    requires i < |clients|
    ensures InUse(clients[i := client]) == InUse(clients) - Weight(clients[i]) + Weight(client)
  {
    if i == 0 {
      assert clients[0 := client][1..] == clients[1..];
    } else {
      assert clients[i := client][1..] == clients[1..][i - 1 := client];
      InUseUpdate(clients[1..], i - 1, client);
    }
  }

  /** The two assertions of getFreeClientNoLock hold when the count is right. */
  lemma {:induction false} FullWhenNoneIsFree(clients: seq<Client>)
    ensures FirstFree(clients) == |clients| <==> InUse(clients) == |clients|
  {
    if clients != [] { FullWhenNoneIsFree(clients[1..]); }
  }

  lemma {:induction false} NoneInUse(clients: seq<Client>)
    ensures InUse(clients) == 0 <==> forall i | 0 <= i < |clients| :: clients[i].status == FREE
  {
    if clients != [] {
      NoneInUse(clients[1..]);
      if forall i | 0 <= i < |clients[1..]| :: clients[1..][i].status == FREE {
        forall i | 0 < i < |clients| ensures clients[i].status == FREE {
          assert clients[1..][i - 1].status == FREE;
        }
      }
    }
  }

  /** The count of active connections is the number of slots in use. */
  predicate Counted(t: Table) { t.active == InUse(t.clients) }

  function Put(t: Table, i: nat, client: Client): Table
    requires i < |t.clients|
  {
    t.(clients := t.clients[i := client])
  }

  /** allocateClient: the first free slot takes the socket, if there is one. */
  function Allocate(t: Table, socket: int): Table {
    var i := FirstFree(t.clients);
    if i == |t.clients| then t
    else Table(t.clients[i := Client(IDLE, socket, None)], t.active + 1)
  }

  /** The locked end of deallocateClient. */
  function Release(t: Table, i: nat): Table
    requires i < |t.clients|
  {
    Table(t.clients[i := t.clients[i].(status := FREE)], t.active - 1)
  }

  function SetStatus(t: Table, i: nat, status: Status): Table
    requires i < |t.clients|
  {
    Put(t, i, t.clients[i].(status := status))
  }

  function SetThread(t: Table, i: nat, thread: Option<Tid>): Table
    requires i < |t.clients|
  {
    Put(t, i, t.clients[i].(thread := thread))
  }

  /** isValidIndex. */
  predicate ValidIndex(t: Table, i: nat) {
    i < |t.clients| && t.clients[i].status != FREE
  }

  lemma {:induction false} AllocateCounts(t: Table, socket: int)
    requires Counted(t)
    ensures Counted(Allocate(t, socket))
  {
    var i := FirstFree(t.clients);
    if i < |t.clients| { InUseUpdate(t.clients, i, Client(IDLE, socket, None)); }
  }

  lemma {:induction false} ReleaseCounts(t: Table, i: nat)
    requires Counted(t) && ValidIndex(t, i)
    ensures Counted(Release(t, i))
  {
    InUseUpdate(t.clients, i, t.clients[i].(status := FREE));
  }

  lemma {:induction false} PutCounts(t: Table, i: nat, client: Client)
    requires Counted(t) && ValidIndex(t, i) && client.status != FREE
    ensures Counted(Put(t, i, client))
  {
    InUseUpdate(t.clients, i, client);
  }
}
