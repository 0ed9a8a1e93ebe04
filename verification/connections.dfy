/**
 * main.cpp: the table of client descriptors and the accept loop that fills
 * and clears it. accept() and fork() are not run: what they return is given
 * to each step. A step that forks a child is seen from the parent, except
 * for fork() returning 0, where the process is the child and leaves the loop.
 */
module Connections {
  import Config

  /** The value of a slot that holds no descriptor. */
  const Free: int := -1

  /** The first index holding `x`, or |s| when there is none. */
  function FirstIndex(s: seq<int>, x: int): (i: nat)
    ensures i <= |s|
    ensures i < |s| ==> s[i] == x
    ensures forall j :: 0 <= j < i ==> s[j] != x
  {
    if s == [] then 0
    else if s[0] == x then 0
    else 1 + FirstIndex(s[1..], x)
  }

  /** find_free_slot on the table `s`: the smallest free index, or -1 when every slot is taken. */
  function FirstFree(s: seq<int>): (slot: int)
    ensures -1 <= slot < |s|
    ensures slot >= 0 ==> s[slot] == Free && forall j :: 0 <= j < slot ==> s[j] != Free
    ensures slot == -1 <==> Free !in s
  {
    var i := FirstIndex(s, Free);
    if i < |s| then i else -1
  }

  /** remove_client on the table `s`: the first slot holding `fd` becomes free; nothing else changes. */
  function RemoveFirst(s: seq<int>, fd: int): (r: seq<int>)
    ensures |r| == |s|
    ensures fd in s ==> r[FirstIndex(s, fd)] == Free
    ensures forall j :: 0 <= j < |s| && j != FirstIndex(s, fd) ==> r[j] == s[j]
  {
    var i := FirstIndex(s, fd);
    if i < |s| then s[i := Free] else s
  }

  /** A descriptor that is in no slot leaves the table as it is. */
  lemma {:induction false} RemoveAbsent(s: seq<int>, fd: int)
    requires fd !in s
    ensures RemoveFirst(s, fd) == s
  {
    assert FirstIndex(s, fd) == |s|;
  }

  predicate AllFree(s: seq<int>)
  {
    forall j :: 0 <= j < |s| ==> s[j] == Free
  }

  /** The table right after init_clients: MAX free slots. */
  function FreeTable(): (s: seq<int>)
    ensures |s| == Config.Max && AllFree(s)
  {
    seq(Config.Max, _ => Free)
  }

  /** A table of MAX slots that are all free is the table init_clients leaves. */
  lemma {:induction false} AllFreeIsFreeTable(s: seq<int>)
    requires |s| == Config.Max && AllFree(s)
    ensures s == FreeTable()
  {
  }

  /** What one pass of the accept loop ends with. */
  datatype Event =
    | NoFreeSlot          // sleep(1) and retry; accept() is not called
    | AcceptFailed        // accept() returned a negative value
    | ForkFailed(fd: int) // fork() failed; the descriptor is closed and its slot cleared
    | ChildServes(fd: int) // fork() returned 0: this process is the child and serves fd
    | Forked(fd: int)     // the parent closes fd and removes it from the table

  /**
   * One pass of the loop in main, on the table `s`, given what accept() and
   * fork() return: the event and the table afterwards.
   */
  function Next(s: seq<int>, acceptFd: int, pid: int): (r: (Event, seq<int>))
    ensures |r.1| == |s|
    ensures r.0 == NoFreeSlot <==> Free !in s
    ensures r.0 == AcceptFailed <==> Free in s && acceptFd < 0
    ensures r.0 == NoFreeSlot || r.0 == AcceptFailed || r.0.ForkFailed? ==> r.1 == s
    ensures r.0.ChildServes? ==> pid == 0 && 0 <= FirstFree(s) && r.1[FirstFree(s)] == acceptFd
    ensures r.0.Forked? ==> pid > 0 && r.0.fd == acceptFd
  {
    var slot := FirstFree(s);
    if slot == -1 then (NoFreeSlot, s)
    else if acceptFd < 0 then (AcceptFailed, s)
    else
      var filled := s[slot := acceptFd];
      if pid < 0 then (ForkFailed(acceptFd), filled[slot := Free])
      else if pid == 0 then (ChildServes(acceptFd), filled)
      else (Forked(acceptFd), RemoveFirst(filled, acceptFd))
  }

  /** With no free slot the pass neither accepts nor changes anything, whatever accept() would return. */
  lemma {:induction false} FullTableWaits(s: seq<int>, acceptFd: int, pid: int)
    requires Free !in s
    ensures Next(s, acceptFd, pid) == (NoFreeSlot, s)
  {
  }

  /** A pass writes a descriptor only into a slot that was free; any other change frees a slot. */
  lemma {:induction false} WritesOnlyFreeSlots(s: seq<int>, acceptFd: int, pid: int)
    ensures var t := Next(s, acceptFd, pid).1;
            |t| == |s| && forall j :: 0 <= j < |s| && t[j] != s[j] && t[j] != Free ==> s[j] == Free
  {
  }

  /**
   * On a table of free slots, the parent clears again the slot it filled:
   * the descriptor returned by accept() is in no other slot, so
   * remove_client finds it where it was put.
   */
  lemma {:induction false} ParentFreesSlot(s: seq<int>, slot: nat, fd: int)
    requires AllFree(s) && slot < |s| && fd >= 0
    ensures RemoveFirst(s[slot := fd], fd) == s
  {
    var filled := s[slot := fd];
    assert filled[slot] == fd;
    assert forall j :: 0 <= j < slot ==> filled[j] != fd;
  }

  /**
   * Every pass that stays in the loop leaves every slot free, and a table
   * of free slots is never full: the table does not limit the number of
   * children.
   */
  lemma {:induction false} PassKeepsAllFree(s: seq<int>, acceptFd: int, pid: int)
    requires AllFree(s) && s != []
    ensures Next(s, acceptFd, pid).0 != NoFreeSlot
    ensures !Next(s, acceptFd, pid).0.ChildServes? ==> AllFree(Next(s, acceptFd, pid).1)
  {
    assert s[0] == Free;
    if acceptFd >= 0 && pid > 0 {
      ParentFreesSlot(s, 0, acceptFd);
    } else if acceptFd >= 0 && pid < 0 {
      assert s[0 := acceptFd][0 := Free] == s;
    }
  }

  /** The global `clients` array, updated in place by main. */
  class SlotTable {
    var clients: array<int>

    predicate Valid()
      reads this
    {
      clients.Length == Config.Max
    }

    /** The array as a global of static storage: MAX slots, zero before init_clients runs. */
    constructor ()
      ensures Valid() && fresh(clients)
      ensures forall j :: 0 <= j < clients.Length ==> clients[j] == 0
    {
      clients := new int[Config.Max](_ => 0);
    }

    /** init_clients: every slot is free. */
    method InitClients()
      requires Valid()
      modifies clients
      ensures Valid() && clients[..] == FreeTable()
    {
      var i := 0;
      while i < clients.Length
        invariant 0 <= i <= clients.Length
        invariant forall j :: 0 <= j < i ==> clients[j] == Free
      {
        clients[i] := Free;
        i := i + 1;
      }
    }

    /** find_free_slot: a scan from the first slot. */
    method FindFreeSlot() returns (slot: int)
      requires Valid()
      ensures slot == FirstFree(clients[..])
    {
      var i := 0;
      while i < clients.Length
        invariant 0 <= i <= clients.Length
        invariant forall j :: 0 <= j < i ==> clients[j] != Free
      {
        if clients[i] == Free {
          return i;
        }
        i := i + 1;
      }
      return -1;
    }

    /** remove_client: free the first slot holding `fd`, if any. */
    method RemoveClient(fd: int)
      requires Valid()
      modifies clients
      ensures Valid()
      ensures clients[..] == RemoveFirst(old(clients[..]), fd)
    {
      var i := 0;
      while i < clients.Length
        invariant 0 <= i <= clients.Length
        invariant forall j :: 0 <= j < i ==> clients[j] != fd
        invariant clients[..] == old(clients[..])
      {
        if clients[i] == fd {
          clients[i] := Free;
          return;
        }
        i := i + 1;
      }
    }

    /** One pass of the loop in main, given what accept() and fork() return. */
    method Step(acceptFd: int, pid: int) returns (ev: Event)
      requires Valid()
      modifies clients
      ensures Valid()
      ensures (ev, clients[..]) == Next(old(clients[..]), acceptFd, pid)
    {
      var slot := FindFreeSlot();
      if slot == -1 {
        return NoFreeSlot;
      }
      var clientFd := acceptFd;
      if clientFd < 0 {
        return AcceptFailed;
      }
      clients[slot] := clientFd;
      if pid < 0 {
        clients[slot] := Free;
        return ForkFailed(clientFd);
      }
      if pid == 0 {
        return ChildServes(clientFd);
      }
      RemoveClient(clientFd);
      return Forked(clientFd);
    }

    /**
     * main from init_clients on, for as many passes as there are accept()
     * and fork() results, leaving the loop in a child. Every pass starts
     * from the table init_clients leaves, so no pass waits for a free slot;
     * the passes stop early only in a child.
     */
    method Serve(results: seq<(int, int)>) returns (events: seq<Event>)
      requires Valid()
      modifies clients
      ensures Valid()
      ensures |events| <= |results|
      ensures forall k :: 0 <= k < |events| ==> events[k] == Next(FreeTable(), results[k].0, results[k].1).0
      ensures forall k :: 0 <= k < |events| ==> events[k] != NoFreeSlot
      ensures forall k :: 0 <= k < |events| - 1 ==> !events[k].ChildServes?
      ensures |events| < |results| ==> events != [] && events[|events| - 1].ChildServes?
      ensures events == [] || !events[|events| - 1].ChildServes? ==> clients[..] == FreeTable()
    {
      InitClients();
      events := [];
      var n := 0;
      while n < |results|
        invariant Valid() && n == |events| <= |results|
        invariant forall k :: 0 <= k < |events| ==> events[k] == Next(FreeTable(), results[k].0, results[k].1).0
        invariant forall k :: 0 <= k < |events| ==> events[k] != NoFreeSlot && !events[k].ChildServes?
        invariant clients[..] == FreeTable()
      {
        PassKeepsAllFree(clients[..], results[n].0, results[n].1);
        var ev := Step(results[n].0, results[n].1);
        events := events + [ev];
        n := n + 1;
        if ev.ChildServes? {
          return;
        }
        AllFreeIsFreeTable(clients[..]);
      }
    }
  }
}
