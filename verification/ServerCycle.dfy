/**
  Connections, restart timers and the main cycle of server.c. Sockets are numbers, negative
  when invalid; everything the network decides (readiness, end of stream, the outcome of a
  connection attempt) is nondeterministic. Buffers are the business of ServerRead and Wire.
*/
module ServerCycle {

  import opened SweepOrder

  /** A restart is due so many milliseconds after it was requested */
  const RESTART_DELAY := 1000

  /** What there is to see of a connection from outside */
  datatype Look = Look(socket: int, isConnected: bool, isWaiting: bool)

  class Connection {
    var socket: int
    var isActive: bool
    var isWaitingForRestart: bool
    var isConnected: bool
    var isFinished: bool

    constructor (socket: int)
      ensures this.socket == socket
      ensures !isActive && !isWaitingForRestart && !isConnected && !isFinished
    {
      this.socket := socket;
      isActive, isWaitingForRestart, isConnected, isFinished := false, false, false, false;
    }
  }

  /** A timer whose callback is restart_connection_callback, or one of the user's */
  datatype Timer =
    | RestartTimer(target: Connection, expires: int)
    | UserTimer(expires: int)

  predicate IsSocket(socket: int) {
    socket >= 0
  }

  /** Pending restarts of one connection */
  function Pending(timers: seq<Timer>, c: Connection): nat {
    if timers == [] then 0
    else (if timers[0].RestartTimer? && timers[0].target == c then 1 else 0) + Pending(timers[1..], c)
  }

  lemma {:induction false} PendingConcat(s: seq<Timer>, t: seq<Timer>, c: Connection)
    ensures Pending(s + t, c) == Pending(s, c) + Pending(t, c)
  {
    if s == [] {
      assert s + t == t;
    } else {
      assert (s + t)[1..] == s[1..] + t;
      PendingConcat(s[1..], t, c);
    }
  }

  lemma PendingWithout(timers: seq<Timer>, k: nat, c: Connection)
    requires k < |timers|
    ensures Pending(timers, c) == Pending(timers[..k] + timers[k + 1..], c)
                                  + if timers[k].RestartTimer? && timers[k].target == c then 1 else 0
  {
    assert timers == timers[..k] + ([timers[k]] + timers[k + 1..]);
    PendingConcat(timers[..k], [timers[k]] + timers[k + 1..], c);
    PendingConcat(timers[..k], timers[k + 1..], c);
  }

  lemma {:induction false} PendingHasTimer(timers: seq<Timer>, k: nat)
    requires k < |timers| && timers[k].RestartTimer?
    ensures Pending(timers, timers[k].target) >= 1
  {
    if k > 0 {
      PendingHasTimer(timers[1..], k - 1);
    }
  }

  lemma {:induction false} NoTimerNonePending(timers: seq<Timer>, c: Connection)
    requires forall k :: 0 <= k < |timers| && timers[k].RestartTimer? ==> timers[k].target != c
    ensures Pending(timers, c) == 0
  {
    if timers != [] {
      NoTimerNonePending(timers[1..], c);
    }
  }

  /** A connection has a restart pending exactly when some timer is for it */
  lemma NoneTargets(timers: seq<Timer>, c: Connection)
    ensures Pending(timers, c) == 0 <==> forall k :: 0 <= k < |timers| && timers[k].RestartTimer? ==>
            timers[k].target != c
  {
    if Pending(timers, c) == 0 {
      forall k | 0 <= k < |timers| && timers[k].RestartTimer? ensures timers[k].target != c {
        PendingHasTimer(timers, k);
      }
    }
    if forall k :: 0 <= k < |timers| && timers[k].RestartTimer? ==> timers[k].target != c {
      NoTimerNonePending(timers, c);
    }
  }

  /** The timers that have not expired, in their order */
  function Unexpired(timers: seq<Timer>, now: int): seq<Timer> {
    if timers == [] then []
    else (if timers[0].expires - now < 0 then [] else [timers[0]]) + Unexpired(timers[1..], now)
  }

  lemma UnexpiredStep(timers: seq<Timer>, k: nat, now: int)
    requires k < |timers|
    ensures if timers[k].expires - now < 0
            then Without(timers, k)[..k] == timers[..k]
                 && Unexpired(timers[k..], now) == Unexpired(Without(timers, k)[k..], now)
            else timers[..k] + Unexpired(timers[k..], now) == timers[..k + 1] + Unexpired(timers[k + 1..], now)
  {
    assert timers[k..][1..] == timers[k + 1..] == Without(timers, k)[k..];
    assert timers[..k + 1] == timers[..k] + [timers[k]];
  }

  lemma {:induction false} UnexpiredStays(timers: seq<Timer>, timer: Timer, now: int)
    requires timer in timers && timer.expires - now >= 0
    ensures timer in Unexpired(timers, now)
  {
    if timer != timers[0] {
      UnexpiredStays(timers[1..], timer, now);
    }
  }

  lemma StillPending(timers: seq<Timer>, c: Connection, at: int)
    requires RestartTimer(c, at) in timers
    ensures Pending(timers, c) >= 1
  {
    var k :| 0 <= k < |timers| && timers[k] == RestartTimer(c, at);
    PendingHasTimer(timers, k);
  }

  // ----- the server -----

  class Server {
    var connections: seq<Connection>
    var timers: seq<Timer>

    /**
      The restart discipline: a connection has one pending restart timer while it waits for
      restart and none otherwise, it has no socket while it waits, and no restart timer
      refers to a connection that is gone. Valid sockets are not shared.
    */
    ghost predicate Valid()
      reads this, connections
    {
      && Distinct(connections)
      && (forall c :: c in connections ==> Pending(timers, c) == if c.isWaitingForRestart then 1 else 0)
      && (forall c :: c in connections && c.isWaitingForRestart ==> !IsSocket(c.socket))
      && (forall k :: 0 <= k < |timers| && timers[k].RestartTimer? ==> timers[k].target in connections)
      && (forall c, d :: c in connections && d in connections && c != d && IsSocket(c.socket) ==> c.socket != d.socket)
    }

    constructor ()
      ensures Valid() && connections == [] && timers == []
    {
      connections, timers := [], [];
    }

    /** What create_socket can return: a negative number when it fails, or one that no open socket has */
    predicate IsFree(socket: int)
      reads this`connections, connections`socket
    {
      IsSocket(socket) ==> forall c :: c in connections ==> c.socket != socket
    }

    method CreateSocket() returns (socket: int)
      ensures IsFree(socket)
    {
      socket := *;
      if exists c :: c in connections && c.socket == socket {
        socket := -1;
      }
    }

    /** server_add_connection, with what create_socket has returned */
    method AddConnection(socket: int) returns (c: Connection)
      requires Valid() && IsFree(socket)
      modifies this
      ensures Valid() && fresh(c) && connections == [c] + old(connections) && timers == old(timers)
      ensures c.socket == socket && !c.isActive && !c.isWaitingForRestart && !c.isConnected && !c.isFinished
    {
      c := new Connection(socket);
      Register(c);
    }

    /** server_accept; accept itself may fail, and the connection is registered all the same */
    method Accept(socket: int) returns (c: Connection)
      requires Valid() && IsFree(socket)
      modifies this
      ensures Valid() && fresh(c) && connections == [c] + old(connections) && timers == old(timers)
      ensures c.socket == socket && !c.isActive && !c.isWaitingForRestart && c.isConnected && !c.isFinished
    {
      c := new Connection(socket);
      c.isConnected := true;
      Register(c);
    }

    /** add_to_list of a new connection */
    method Register(c: Connection)
      requires Valid() && c !in connections && !c.isWaitingForRestart
      requires IsSocket(c.socket) ==> forall d :: d in connections ==> d.socket != c.socket
      modifies this
      ensures Valid() && connections == [c] + old(connections) && timers == old(timers)
    {
      NoTimerNonePending(timers, c);
      connections := [c] + connections;
    }

    /** server_connection_cleanup */
    method Cleanup(c: Connection)
      modifies c
      ensures !IsSocket(c.socket) && !c.isConnected
      ensures c.isWaitingForRestart == old(c.isWaitingForRestart)
      ensures c.isActive == old(c.isActive) && c.isFinished == old(c.isFinished)
    {
      c.socket := -1;
      c.isConnected := false;
    }

    /**
      server_connection_restart. On a connection that is already waiting it would leave two
      pending timers, so the discipline survives the call exactly when it is not.
    */
    method RestartConnection(c: Connection, now: int)
      requires Valid() && c in connections
      modifies this, c
      ensures connections == old(connections)
      ensures timers == [RestartTimer(c, now + 1000)] + old(timers)
      ensures c.isWaitingForRestart && !IsSocket(c.socket) && !c.isConnected
      ensures c.isActive == old(c.isActive) && c.isFinished == old(c.isFinished)
      ensures Valid() <==> !old(c.isWaitingForRestart)
    {
      Cleanup(c);
      timers := [RestartTimer(c, now + RESTART_DELAY)] + timers;
      c.isWaitingForRestart := true;
      assert timers[1..] == old(timers);
      assert Pending(timers, c) == old(Pending(timers, c)) + 1;
    }

    /**
      server_close_connection. The timers are not looked at, so a connection that is waiting would
      leave its restart timer behind: the discipline survives exactly when it is not.
    */
    method CloseConnection(c: Connection, k: nat)
      requires Valid() && k < |connections| && connections[k] == c
      modifies this, c
      ensures connections == Without(old(connections), k) && timers == old(timers)
      ensures Pending(timers, c) == if old(c.isWaitingForRestart) then 1 else 0
      ensures Valid() <==> !old(c.isWaitingForRestart)
      ensures c.isActive == old(c.isActive) && c.isFinished == old(c.isFinished)
    {
      WithoutDrops(connections, k);
      NoneTargets(timers, c);
      connections := Without(connections, k);
      Cleanup(c);
    }

    /** What select is asked about a connection with a socket */
    ghost predicate Selected(c: Connection, output: set<Connection>, rset: set<int>, wset: set<int>, eset: set<int>)
      reads c`socket, c`isConnected
    {
      && (c.socket in rset <==> c.isConnected)
      && (c.socket in wset <==> c in output || !c.isConnected)
      && (c.socket in eset <==> !c.isConnected)
    }

    /** The first i connections are selected, and no other sockets */
    ghost predicate SelectedUpTo(i: nat, output: set<Connection>, rset: set<int>, wset: set<int>, eset: set<int>)
      requires i <= |connections|
      reads this`connections, connections`socket, connections`isConnected
    {
      && (forall k :: 0 <= k < i && IsSocket(connections[k].socket) ==>
          Selected(connections[k], output, rset, wset, eset))
      && (forall socket :: socket in rset + wset + eset ==>
            IsSocket(socket) && exists k :: 0 <= k < i && connections[k].socket == socket)
    }

    /** The first i connections, if active, have a socket or wait for one */
    ghost predicate RestartsUpTo(i: nat)
      requires i <= |connections|
      reads this`connections, connections
    {
      forall k :: 0 <= k < i && connections[k].isActive && !IsSocket(connections[k].socket) ==>
        connections[k].isWaitingForRestart
    }

    /**
      The first loop of server_cycle: what to select on, and restarts for active connections that
      lost their socket. Those with something to write are in output.
    */
    method PrepareSelect(output: set<Connection>, now: int) returns (rset: set<int>, wset: set<int>, eset: set<int>)
      requires Valid()
      modifies `timers, connections`isWaitingForRestart
      ensures Valid() && SelectedUpTo(|connections|, output, rset, wset, eset) && RestartsUpTo(|connections|)
      ensures forall c :: c in connections ==>
                (c.isWaitingForRestart <==> old(c.isWaitingForRestart) || (c.isActive && !IsSocket(c.socket)))
    {
      rset, wset, eset := {}, {}, {};
      var i := 0;
      while i < |connections|
        invariant 0 <= i <= |connections| && Valid()
        invariant SelectedUpTo(i, output, rset, wset, eset) && RestartsUpTo(i)
        invariant forall c :: c in connections && c.isWaitingForRestart ==>
                    old(c.isWaitingForRestart) || (c.isActive && !IsSocket(c.socket))
        invariant forall c :: c in connections && old(c.isWaitingForRestart) ==> c.isWaitingForRestart
      {
        rset, wset, eset := PrepareOne(connections[i], i, output, now, rset, wset, eset);
        i := i + 1;
      }
    }

    method PrepareOne(c: Connection, ghost i: nat, output: set<Connection>, now: int,
        rset0: set<int>, wset0: set<int>, eset0: set<int>)
      returns (rset: set<int>, wset: set<int>, eset: set<int>)
      requires Valid() && i < |connections| && connections[i] == c
      requires SelectedUpTo(i, output, rset0, wset0, eset0) && RestartsUpTo(i)
      modifies `timers, c`isWaitingForRestart
      ensures Valid() && SelectedUpTo(i + 1, output, rset, wset, eset) && RestartsUpTo(i + 1)
      ensures c.isWaitingForRestart <==> old(c.isWaitingForRestart) || (c.isActive && !IsSocket(c.socket))
    {
      rset, wset, eset := rset0, wset0, eset0;
      if IsSocket(c.socket) {
        rset, wset, eset := SelectOne(c, i, output, rset, wset, eset);
      } else if c.isActive && !c.isWaitingForRestart {
        ScheduleRestart(c, now);
      }
    }

    method SelectOne(c: Connection, ghost i: nat, output: set<Connection>, rset0: set<int>, wset0: set<int>,
        eset0: set<int>)
      returns (rset: set<int>, wset: set<int>, eset: set<int>)
      requires Valid() && i < |connections| && connections[i] == c && IsSocket(c.socket)
      requires SelectedUpTo(i, output, rset0, wset0, eset0)
      ensures SelectedUpTo(i + 1, output, rset, wset, eset)
    {
      assert c.socket !in rset0 + wset0 + eset0;
      rset, wset, eset := rset0, wset0, eset0;
      if c.isConnected {
        rset := rset + {c.socket};
      }
      if c in output {
        wset := wset + {c.socket};
      }
      if !c.isConnected {
        wset, eset := wset + {c.socket}, eset + {c.socket};
      }
      forall k | 0 <= k < i && IsSocket(connections[k].socket)
        ensures Selected(connections[k], output, rset, wset, eset)
      {
        assert Selected(connections[k], output, rset0, wset0, eset0) && connections[k].socket != c.socket;
      }
    }

    /** The timer and the flag, for a connection whose socket is already gone */
    method ScheduleRestart(c: Connection, now: int)
      requires Valid() && c in connections && !IsSocket(c.socket) && !c.isWaitingForRestart
      modifies `timers, c`isWaitingForRestart
      ensures Valid() && c.isWaitingForRestart && timers == [RestartTimer(c, now + 1000)] + old(timers)
    {
      timers := [RestartTimer(c, now + RESTART_DELAY)] + timers;
      c.isWaitingForRestart := true;
      assert timers[1..] == old(timers);
    }

    /** Whether reading c destroys it, by end of stream or by a finished flag */
    ghost predicate ReadCloses(c: Connection, eof: bool, finish: bool)
      reads c`isActive, c`isFinished
    {
      if eof then !c.isActive else c.isFinished || finish
    }

    /** Without a socket, until the restart timer fires */
    predicate AwaitsRestart(c: Connection)
      reads c
    {
      c.isWaitingForRestart && !IsSocket(c.socket) && !c.isConnected
    }

    /** The effect of server_connection_read on the lists; finish: a line hook asks to close the connection */
    method ReadConnection(c: Connection, k: nat, eof: bool, finish: bool, now: int) returns (closed: bool)
      requires Valid() && k < |connections| && connections[k] == c && IsSocket(c.socket)
      modifies this, c
      ensures Valid() && closed == old(ReadCloses(c, eof, finish))
      ensures connections == if closed then Without(old(connections), k) else old(connections)
      ensures eof && old(c.isActive) ==> AwaitsRestart(c) && timers == [RestartTimer(c, now + 1000)] + old(timers)
      ensures !(eof && old(c.isActive)) ==> timers == old(timers)
      ensures !eof && !closed ==>
                c.socket == old(c.socket) && c.isConnected == old(c.isConnected) && !c.isWaitingForRestart
      ensures c.isActive == old(c.isActive) && c.isFinished == (old(c.isFinished) || finish)
    {
      closed := false;
      if finish {
        c.isFinished := true;
      }
      if eof {
        if c.isActive && !c.isWaitingForRestart {
          RestartConnection(c, now);
        } else {
          CloseConnection(c, k);
          closed := true;
        }
      } else if c.isFinished {
        CloseConnection(c, k);
        closed := true;
      }
    }

    /** Finalization of an asynchronous connect, which may have failed, or a write, on a socket select reported */
    method ServiceWrite(c: Connection, failed: bool)
      requires Valid() && c in connections
      modifies c
      ensures Valid() && connections == old(connections)
      ensures c.isActive == old(c.isActive) && c.isFinished == old(c.isFinished)
      ensures c.isWaitingForRestart == old(c.isWaitingForRestart)
      ensures if old(c.isConnected) then c.socket == old(c.socket) && c.isConnected
              else if failed then !IsSocket(c.socket) && !c.isConnected
              else c.socket == old(c.socket) && c.isConnected
    {
      if !c.isConnected {
        if failed {
          c.socket := -1;
        } else {
          c.isConnected := true;
        }
      }
    }

    /** The connections still to be read are those with their socket in rset; they read as foreseen */
    ghost predicate Tracking(rset: set<int>, unread: set<Connection>, closing: set<Connection>,
                             eof: set<Connection>, finish: set<Connection>)
      reads this, connections
    {
      && (forall c :: c in connections ==> (c in unread <==> IsSocket(c.socket) && c.socket in rset))
      && (forall c :: c in connections && c in unread ==>
            c.isConnected && (c in closing <==> ReadCloses(c, c in eof, c in finish)))
    }

    method VisitWrite(c: Connection, failed: bool, rset: set<int>, ghost unread: set<Connection>,
        ghost closing: set<Connection>, ghost eof: set<Connection>, ghost finish: set<Connection>)
      requires Valid() && c in connections && Tracking(rset, unread, closing, eof, finish)
      modifies c
      ensures Valid() && connections == old(connections) && Tracking(rset, unread, closing, eof, finish)
      ensures c.isWaitingForRestart == old(c.isWaitingForRestart)
      ensures if old(c.isConnected) then c.socket == old(c.socket) && c.isConnected
              else if failed then !IsSocket(c.socket) && !c.isConnected
              else c.socket == old(c.socket) && c.isConnected
    {
      ServiceWrite(c, failed);
    }

    method VisitRead(c: Connection, i: nat, rset: set<int>, ghost unread: set<Connection>,
        ghost closing: set<Connection>, eof: set<Connection>, finish: set<Connection>, now: int)
      returns (next: nat)
      requires Valid() && i < |connections| && connections[i] == c && c in unread
      requires Tracking(rset, unread, closing, eof, finish)
      modifies this, c
      ensures Valid() && Tracking(rset - {old(c.socket)}, unread - {c}, closing, eof, finish)
      ensures connections == if c in closing then Without(old(connections), i) else old(connections)
      ensures next == if c in closing then AfterClose(i, old(|connections|)) else i + 1
      ensures forall d :: d in connections ==> d in old(connections)
      ensures c in connections ==> HasBeenRead(c, c in eof, old(c.socket), now)
      ensures forall timer :: timer in old(timers) ==> timer in timers
    {
      WithoutDrops(connections, i);
      var closed := ReadConnection(c, i, c in eof, c in finish, now);
      next := if closed then (if i < |connections| then i + 1 else 0) else i + 1;
    }

    /** The connections with a socket in rset */
    ghost function InSet(rset: set<int>): set<Connection>
      reads this`connections, connections`socket
    {
      set c | c in connections && IsSocket(c.socket) && c.socket in rset
    }

    /** Those that a read would close */
    ghost function Closing(eof: set<Connection>, finish: set<Connection>): set<Connection>
      reads this`connections, connections`isActive, connections`isFinished
    {
      set c | c in connections && ReadCloses(c, c in eof, c in finish)
    }

    /**
      What a read that does not close it makes of a connection: at the end of the stream a restart,
      which is pending
    */
    ghost predicate HasBeenRead(c: Connection, eof: bool, socket: int, now: int)
      reads this`timers, c
    {
      if eof then AwaitsRestart(c) && RestartTimer(c, now + 1000) in timers
      else c.socket == socket && c.isConnected && !c.isWaitingForRestart
    }

    /** What the sweep makes of a connection that it does not read: it may finish a connect, and no more */
    ghost predicate NotRead(c: Connection, failed: bool, was: Look)
      reads c
    {
      && c.isWaitingForRestart == was.isWaiting
      && if was.isConnected || !IsSocket(was.socket) then c.socket == was.socket && c.isConnected == was.isConnected
         else if failed then !c.isConnected && (c.socket == was.socket || !IsSocket(c.socket))
         else c.socket == was.socket
    }

    /** The connections as they are */
    ghost function Looks(): map<Connection, Look>
      reads this`connections, connections
    {
      map c | c in connections :: Look(c.socket, c.isConnected, c.isWaitingForRestart)
    }

    /** What the sweep has made of the connections that are left, of which it has read those in order */
    ghost predicate Swept(order: seq<Connection>, first: map<Connection, Look>, eof: set<Connection>,
        failed: set<Connection>, now: int)
      reads this, connections
    {
      forall c :: c in connections ==>
        && c in first
        && if c in order then HasBeenRead(c, c in eof, first[c].socket, now) else NotRead(c, c in failed, first[c])
    }

    /** One round of the sweep, for the connection at position i */
    method SweepOne(c: Connection, i: nat, rset: set<int>, wset: set<int>, eset: set<int>, now: int,
        eof: set<Connection>, finish: set<Connection>, failed: set<Connection>, order: seq<Connection>,
        ghost unread: set<Connection>, ghost closing: set<Connection>, ghost first: map<Connection, Look>)
      returns (next: nat, rset': set<int>, wset': set<int>, order': seq<Connection>)
      requires Valid() && i < |connections| && connections[i] == c
      requires Tracking(rset, unread, closing, eof, finish) && Swept(order, first, eof, failed, now)
      modifies this, c
      ensures Valid() && Swept(order', first, eof, failed, now)
      ensures forall d :: d in connections ==> d in old(connections)
      ensures Tracking(rset', if c in unread then unread - {c} else unread, closing, eof, finish)
      ensures order' == if c in unread then order + [c] else order
      ensures connections == if c in unread && c in closing then Without(old(connections), i) else old(connections)
      ensures next == if c in unread && c in closing then AfterClose(i, old(|connections|)) else i + 1
    {
      next, rset', wset', order' := i + 1, rset, wset, order;
      if IsSocket(c.socket) && (c.socket in wset || c.socket in eset) {
        wset' := wset - {c.socket};
        VisitWrite(c, c in failed, rset, unread, closing, eof, finish);
      }
      if IsSocket(c.socket) && c.socket in rset {
        rset' := rset - {c.socket};
        order' := order + [c];
        next := VisitRead(c, i, rset, unread, closing, eof, finish, now);
      }
    }

    /**
      The second loop of server_cycle. rset, wset and eset are what select reported. Which reads
      meet an end of stream, which a hook that closes the connection, and which connects have
      failed, is up to the network.
    */
    method Sweep(rset0: set<int>, wset0: set<int>, eset: set<int>, now: int,
        eof: set<Connection>, finish: set<Connection>, failed: set<Connection>)
      returns (order: seq<Connection>, ghost ready: set<Connection>, ghost closing: set<Connection>)
      requires Valid()
      requires forall c :: c in connections && IsSocket(c.socket) && c.socket in rset0 ==> c.isConnected
      modifies this, connections
      ensures Valid()
      ensures ready == old(InSet(rset0)) && closing == old(Closing(eof, finish))
      ensures order == SweepReads(old(connections), 0, ready, closing)
      ensures connections == SweepKeeps(old(connections), 0, ready, closing)
      ensures Swept(order, old(Looks()), eof, failed, now)
    {
      var rset, wset := rset0, wset0;
      ghost var first := Looks();
      ready, closing := InSet(rset0), Closing(eof, finish);
      ghost var unread := ready;
      order := [];
      var i: nat := 0;
      while i < |connections|
        invariant Valid() && Tracking(rset, unread, closing, eof, finish) && Swept(order, first, eof, failed, now)
        invariant forall c :: c in connections ==> c in old(connections)
        invariant UnderWay(old(connections), ready, closing, order, connections, i, unread)
        decreases |connections|, |connections| - i
      {
        var c := connections[i];
        if c in unread {
          ReadStep(old(connections), ready, closing, order, connections, i, unread);
        } else {
          PassStep(old(connections), ready, closing, order, connections, i, unread);
        }
        i, rset, wset, order :=
          SweepOne(c, i, rset, wset, eset, now, eof, finish, failed, order, unread, closing, first);
        unread := if c in unread then unread - {c} else unread;
      }
    }

    /** restart_connection_callback for the timer at position k, and the removal of that timer */
    method FireRestart(k: nat, socket: int)
      requires Valid() && k < |timers| && timers[k].RestartTimer? && IsFree(socket)
      modifies `timers, timers[k].target`isWaitingForRestart, timers[k].target`socket
      ensures Valid() && timers == Without(old(timers), k)
      ensures var c := old(timers[k]).target;
              old(c.isWaitingForRestart) && !c.isWaitingForRestart && c.socket == socket
    {
      var c := timers[k].target;
      PendingHasTimer(timers, k);
      assert c.isWaitingForRestart;
      forall d | d in connections
        ensures Pending(Without(timers, k), d) == if d == c then 0 else Pending(timers, d)
      {
        PendingWithout(timers, k, d);
      }
      c.isWaitingForRestart := false;
      c.socket := socket;
      timers := Without(timers, k);
    }

    method AttemptOne(k: nat, attempts: map<Connection, int>, ghost first: map<Connection, Look>)
      returns (attempts': map<Connection, int>)
      requires Valid() && k < |timers| && timers[k].RestartTimer? && Attempted(attempts, first)
      modifies `timers, timers[k].target`isWaitingForRestart, timers[k].target`socket
      ensures Valid() && timers == Without(old(timers), k) && Attempted(attempts', first)
    {
      var c := timers[k].target;
      var socket := CreateSocket();
      FireRestart(k, socket);
      attempts' := attempts[c := socket];
    }

    method DropUserTimer(k: nat)
      requires Valid() && k < |timers| && timers[k].UserTimer?
      modifies `timers
      ensures Valid() && timers == Without(old(timers), k)
    {
      forall d | d in connections
        ensures Pending(Without(timers, k), d) == Pending(timers, d)
      {
        PendingWithout(timers, k, d);
      }
      timers := Without(timers, k);
    }

    /** Connections whose timer fired have what their attempt gave them; the others are as they were at first */
    ghost predicate Attempted(attempts: map<Connection, int>, first: map<Connection, Look>)
      reads this`connections, connections
    {
      forall c :: c in connections ==>
        && c in first
        && if c in attempts then first[c].isWaiting && !c.isWaitingForRestart && c.socket == attempts[c]
           else c.isWaitingForRestart == first[c].isWaiting && c.socket == first[c].socket
    }

    /**
      server_check_timers; the user's own callbacks do nothing here. The attempts are what
      create_socket returned for the connections whose timer had expired.
    */
    method CheckTimers(now: int) returns (attempts: map<Connection, int>)
      requires Valid()
      modifies `timers, connections`isWaitingForRestart, connections`socket
      ensures Valid() && timers == Unexpired(old(timers), now)
      ensures Attempted(attempts, old(Looks()))
    {
      attempts := map[];
      var k := 0;
      assert timers[..0] == [] && timers[0..] == timers;
      while k < |timers|
        invariant Valid() && 0 <= k <= |timers|
        invariant Unexpired(old(timers), now) == timers[..k] + Unexpired(timers[k..], now)
        invariant Attempted(attempts, old(Looks()))
        decreases |timers| - k
      {
        UnexpiredStep(timers, k, now);
        if timers[k].expires - now < 0 {
          if timers[k].RestartTimer? {
            attempts := AttemptOne(k, attempts, old(Looks()));
          } else {
            DropUserTimer(k);
          }
        } else {
          k := k + 1;
        }
      }
    }

    /** The connections that select reports for reading, of those whose sockets it was asked about */
    ghost function Ready(reported: set<int>): set<Connection>
      reads this`connections, connections`socket, connections`isConnected
    {
      set c | c in connections && IsSocket(c.socket) && c.isConnected && c.socket in reported
    }

    lemma SelectedAreReady(output: set<Connection>, rset: set<int>, wset: set<int>, eset: set<int>, reported: set<int>)
      requires SelectedUpTo(|connections|, output, rset, wset, eset)
      ensures InSet(rset * reported) == Ready(reported)
      ensures forall c :: c in connections && IsSocket(c.socket) && c.socket in rset * reported ==> c.isConnected
    {
      forall c | c in connections && IsSocket(c.socket) ensures c.socket in rset <==> c.isConnected {
        assert Selected(c, output, rset, wset, eset);
      }
    }

    /** What cycle reads, of a list of connections at its start */
    ghost predicate ReadsAsSwept(order: seq<Connection>, start: seq<Connection>, ready: set<Connection>,
        closing: set<Connection>, kept: seq<Connection>)
    {
      order == SweepReads(start, 0, ready, closing) && kept == SweepKeeps(start, 0, ready, closing)
    }

    /** Both loops of server_cycle, with the call of select in between */
    method SelectAndSweep(before: int, now: int, reported: set<int>, writable: set<int>, excepted: set<int>,
        eof: set<Connection>, finish: set<Connection>, failed: set<Connection>)
      returns (order: seq<Connection>, ghost closing: set<Connection>)
      requires Valid()
      modifies this, connections
      ensures Valid()
      ensures closing == old(Closing(eof, finish))
      ensures ReadsAsSwept(order, old(connections), old(Ready(reported)), closing, connections)
      ensures forall c :: c in connections ==> c in old(connections)
      ensures forall c :: c in order && c in connections ==> HasBeenRead(c, c in eof, old(c.socket), now)
    {
      var output: set<Connection> := *;
      var rset, wset, eset := PrepareSelect(output, before);
      SelectedAreReady(output, rset, wset, eset, reported);
      ghost var first := Looks();
      ghost var ready;
      order, ready, closing := Sweep(rset * reported, wset * writable, eset * excepted, now, eof, finish, failed);
      SweepDropsClosed(old(connections), 0, ready, closing);
    }

    /**
      server_cycle, with select called at time before and returning at time now: reported, writable
      and excepted are the sockets it reports, and the network decides the rest. The connections
      read, their order, and the connections kept are those of the sweep over the ready ones, as
      SweepOrder has it; those kept that met the end of their stream wait for restart, and the
      others that were read are as before.
    */
    method Cycle(before: int, now: int, reported: set<int>, writable: set<int>, excepted: set<int>,
        eof: set<Connection>, finish: set<Connection>, failed: set<Connection>, incoming: bool)
      returns (order: seq<Connection>, ghost closing: set<Connection>, ghost kept: seq<Connection>)
      requires Valid()
      modifies this, connections
      ensures Valid()
      ensures closing == old(Closing(eof, finish))
      ensures ReadsAsSwept(order, old(connections), old(Ready(reported)), closing, kept)
      ensures if incoming then |connections| > 0 && fresh(connections[0]) && connections[1..] == kept
              else connections == kept
      ensures forall c :: c in kept ==> c in old(connections)
      ensures forall c :: c in order && c in kept ==>
                if c in eof then AwaitsRestart(c)
                else c.socket == old(c.socket) && c.isConnected && !c.isWaitingForRestart
    {
      order, closing := SelectAndSweep(before, now, reported, writable, excepted, eof, finish, failed);
      kept := connections;
      if incoming {
        var socket := CreateSocket();
        var _ := Accept(socket);
      }
      assert forall k :: 0 <= k < |connections| ==> connections[k] in old(connections) || fresh(connections[k]);
      Settle(order, eof, now);
    }

    /** The timers, which leave alone what the reads have just done */
    method Settle(order: seq<Connection>, ghost eof: set<Connection>, now: int)
      requires Valid()
      modifies `timers, connections`isWaitingForRestart, connections`socket
      ensures Valid()
      ensures forall c :: c in order && c in connections && old(HasBeenRead(c, c in eof, c.socket, now)) ==>
                c.isWaitingForRestart == old(c.isWaitingForRestart) && c.socket == old(c.socket)
    {
      ghost var attempts := CheckTimers(now);
      forall c | c in order && c in connections && old(HasBeenRead(c, c in eof, c.socket, now))
        ensures c !in attempts
      {
        if c in eof {
          UnexpiredStays(old(timers), RestartTimer(c, now + 1000), now);
          StillPending(timers, c, now + 1000);
        }
      }
    }
  }

  /**
    Any run: cycles, new outgoing connections, changes of is_active, and connections closed or
    restarted by their owner, in any order. The restart discipline holds throughout, as long as
    the owner leaves those alone that are waiting for restart.
  */
  method Run(steps: nat) returns (server: Server)
    ensures fresh(server) && server.Valid()
  {
    server := new Server();
    for n := 0 to steps
      invariant server.Valid() && fresh(server)
      invariant forall k :: 0 <= k < |server.connections| ==> fresh(server.connections[k])
    {
      ghost var before := server.connections;
      OwnerStep(server);
      assert forall k :: 0 <= k < |server.connections| ==>
               server.connections[k] in before || fresh(server.connections[k]);
    }
  }

  method OwnerStep(server: Server)
    requires server.Valid()
    modifies server, server.connections
    ensures server.Valid()
    ensures forall k :: 0 <= k < |server.connections| ==>
              server.connections[k] in old(server.connections) || fresh(server.connections[k])
  {
    var what: nat, now: int, action: nat := *, *, *;
    if what >= |server.connections| {
      if action == 0 {
        var socket := server.CreateSocket();
        var _ := server.AddConnection(socket);
      } else {
        AnyCycle(server, now);
      }
    } else {
      var c := server.connections[what];
      if action == 0 {
        var active: bool := *;
        c.isActive := active;
      } else if !c.isWaitingForRestart {
        if action == 1 {
          server.RestartConnection(c, now);
        } else {
          WithoutDrops(server.connections, what);
          server.CloseConnection(c, what);
        }
      }
    }
  }

  /** A cycle, whatever the network does */
  method AnyCycle(server: Server, now: int)
    requires server.Valid()
    modifies server, server.connections
    ensures server.Valid()
    ensures forall k :: 0 <= k < |server.connections| ==>
              server.connections[k] in old(server.connections) || fresh(server.connections[k])
  {
    var before: int, incoming: bool := *, *;
    var reported: set<int>, writable: set<int>, excepted: set<int> := *, *, *;
    var eof: set<Connection>, finish: set<Connection>, failed: set<Connection> := *, *, *;
    var _, closing, kept := server.Cycle(before, now, reported, writable, excepted, eof, finish, failed, incoming);
  }

  /** A connection closed by its owner while it waits for restart leaves a timer for a connection that is gone */
  method ClosedWhileWaiting() returns (server: Server, c: Connection)
    ensures c !in server.connections && Pending(server.timers, c) == 1 && !server.Valid()
  {
    server := new Server();
    c := server.AddConnection(-1);
    server.RestartConnection(c, 0);
    assert Pending(server.timers, c) == 1;
    server.CloseConnection(c, 0);
  }

  /** One that its owner restarts while it waits has two */
  method RestartedWhileWaiting() returns (server: Server, c: Connection)
    ensures c in server.connections && Pending(server.timers, c) == 2 && !server.Valid()
  {
    server := new Server();
    c := server.AddConnection(-1);
    server.RestartConnection(c, 0);
    ghost var timers := server.timers;
    server.RestartConnection(c, 0);
    assert server.timers[1..] == timers;
  }
}
