/** The class of Server/ConnectionManager.hpp: each method does to the slots what the table function
    used by the protocol says, as one locked section does it. */
module ConnectionManagers {
  import opened Basics
  import opened ConnectionSlots

  /** Deallocation leaves the socket behind in the slot. */
  function Deallocated(client: Client): Client { client.(status := FREE, thread := None) }

  class ConnectionManager {
    const maxConnections: nat
    var activeConnections: int
    const connections: array<Client>

    ghost predicate Valid()
      reads this, connections
    {
      && connections.Length == maxConnections && Counted(Contents())
      && forall j | 0 <= j < connections.Length && connections[j].status == FREE :: connections[j].thread == None
    }

    ghost function Contents(): Table
      reads this, connections
    {
      Table(connections[..], activeConnections)
    }

    constructor (maxConnections: nat)
      ensures Valid() && fresh(connections)
      ensures Contents() == Table(seq(maxConnections, _ => FRESH), 0)
    {
      this.maxConnections := maxConnections;
      this.activeConnections := 0;
      this.connections := new Client[maxConnections](_ => FRESH);
      new;
      assert connections[..] == seq(maxConnections, _ => FRESH);
      NoneInUse(connections[..]);
    }

    method Size() returns (n: nat)
      ensures n == connections.Length
    {
      n := connections.Length;
    }

    method GetFreeClientNoLock() returns (i: nat)
      requires Valid()
      ensures i == FirstFree(connections[..])
    {
      i := 0;
      FullWhenNoneIsFree(connections[..]);
      while i < connections.Length
        invariant i <= connections.Length
        invariant forall j | 0 <= j < i :: connections[..][j].status != FREE
      {
        if connections[i].status == FREE {
          assert connections[..][i].status == FREE;
          assert activeConnections < connections.Length;
          break;
        }
        i := i + 1;
      }
      assert i < connections.Length || activeConnections == connections.Length;
    }

    method GetIndex(socket: int) returns (i: nat)
      ensures i == IndexOf(connections[..], socket)
    {
      i := 0;
      while i < connections.Length
        invariant i <= connections.Length
        invariant forall j | 0 <= j < i :: !Registers(connections[..][j], socket)
      {
        if connections[i].status != FREE && connections[i].socket == socket {
          assert Registers(connections[..][i], socket);
          break;
        }
        i := i + 1;
      }
    }

    method IsValidIndex(i: nat) returns (valid: bool)
      ensures valid == ValidIndex(Contents(), i)
    {
      valid := i < connections.Length && connections[i].status != FREE;
    }

    /** The caller must not register a socket twice; the protocol never does. */
    method AllocateClient(socket: int) returns (i: nat)
      requires Valid()
      requires FirstFree(connections[..]) < connections.Length ==> IndexOf(connections[..], socket) == connections.Length
      modifies this, connections
      ensures Valid() && i == FirstFree(old(connections[..]))
      ensures Contents() == Allocate(old(Contents()), socket)
      ensures i < connections.Length ==> connections[i] == Client(IDLE, socket, None) && ValidIndex(Contents(), i)
    {
      AllocateCounts(Contents(), socket);
      i := GetFreeClientNoLock();
      if i == connections.Length { return; }
      var registered := GetIndex(socket);
      assert registered == connections.Length;
      // The handle that is assigned over holds no thread
      assert connections[i].thread == None;
      connections[i] := Client(FREE, socket, None);
      connections[i] := connections[i].(status := IDLE);
      activeConnections := activeConnections + 1;
      assert connections[..] == old(connections[..])[i := Client(IDLE, socket, None)];
      assert Contents() == Allocate(old(Contents()), socket);
      var valid := IsValidIndex(i);
      assert valid;
    }

    method SetStatus(i: nat, status: Status)
      requires Valid() && ValidIndex(Contents(), i)
      modifies connections
      ensures Contents() == ConnectionSlots.SetStatus(old(Contents()), i, status)
      ensures connections[i] == old(connections[i]).(status := status)
      ensures status != FREE ==> Valid()
    {
      if status != FREE { PutCounts(Contents(), i, connections[i].(status := status)); }
      connections[i] := connections[i].(status := status);
    }

    /** The handle must not hold a joinable thread; the protocol never overwrites one. */
    method RunTask(i: nat, t: Tid)
      requires Valid() && ValidIndex(Contents(), i) && connections[i].thread == None
      modifies connections
      ensures Valid() && Contents() == SetThread(old(Contents()), i, Some(t))
      ensures connections[i] == old(connections[i]).(thread := Some(t))
    {
      PutCounts(Contents(), i, connections[i].(thread := Some(t)));
      connections[i] := connections[i].(thread := Some(t));
    }

    method DeallocateClient(i: nat)
      requires Valid() && ValidIndex(Contents(), i) && connections[i].thread.Some?
      modifies this, connections
      ensures Valid()
      ensures connections[..] == old(connections[..])[i := Client(FREE, old(connections[i].socket), None)]
      ensures Contents() == Release(SetThread(old(Contents()), i, None), i)
    {
      var valid := IsValidIndex(i);
      assert valid;
      PutCounts(Contents(), i, connections[i].(thread := None));
      // join
      connections[i] := connections[i].(thread := None);
      ReleaseCounts(Contents(), i);
      connections[i] := connections[i].(status := FREE);
      activeConnections := activeConnections - 1;
    }

    method GarbageCollection()
      requires Valid()
      requires forall j | 0 <= j < connections.Length && connections[j].status == TERMINATED :: connections[j].thread.Some?
      modifies this, connections
      ensures Valid()
      ensures forall j | 0 <= j < connections.Length ::
                var client := old(connections[j]);
                connections[j] == if client.status == TERMINATED then Client(FREE, client.socket, None) else client
    {
      var i := 0;
      while i < connections.Length
        invariant i <= connections.Length && Valid()
        invariant forall j | 0 <= j < i ::
                    var client := old(connections[j]);
                    connections[j] == if client.status == TERMINATED then Deallocated(client) else client
        invariant forall j | i <= j < connections.Length :: connections[j] == old(connections[j])
      {
        if connections[i].status == TERMINATED {
          ghost var was := connections[..];
          DeallocateClient(i);
          assert forall j | 0 <= j < connections.Length && j != i :: connections[..][j] == was[j];
        }
        i := i + 1;
      }
    }

    method Stop()
      requires Valid()
      requires forall j | 0 <= j < connections.Length && connections[j].status != FREE :: connections[j].thread.Some?
      modifies this, connections
      ensures Valid() && activeConnections == 0
      ensures forall j | 0 <= j < connections.Length ::
                var client := old(connections[j]);
                connections[j] == if client.status != FREE then Client(FREE, client.socket, None) else client
    {
      var i := 0;
      while i < connections.Length
        invariant i <= connections.Length && Valid()
        invariant forall j | 0 <= j < i ::
                    var client := old(connections[j]);
                    connections[j] == if client.status != FREE then Deallocated(client) else client
        invariant forall j | i <= j < connections.Length :: connections[j] == old(connections[j])
      {
        if connections[i].status != FREE {
          ghost var was := connections[..];
          DeallocateClient(i);
          assert forall j | 0 <= j < connections.Length && j != i :: connections[..][j] == was[j];
        }
        i := i + 1;
      }
      NoneInUse(connections[..]);
    }
  }
}
