/** The connection manager: the poll array and the connection list, changed in
    place. A connection is its descriptor; what poll() reports is an argument, and
    the sockets hold what the clients have still to be read. */
module ConnMgr {
  import opened Wrappers
  import opened Readings
  import opened Compaction
  import opened PollRound
  import opened Clients
  import opened Polling
  import opened PointerList

  /** The clients' ends of the connections: environment. */
  class Sockets {
    var unread: map<int, seq<Reading>>

    constructor ()
      ensures unread == map[]
    {
      unread := map[];
    }

    /** tcp_wait_for_connection: a client that is going to say all this. */
    method Connect(fd: int, says: seq<Reading>)
      modifies this
      ensures unread == old(unread)[fd := says]
    {
      unread := unread[fd := says];
    }

    /** read_data: the next reading of the connection, None if it has ended. */
    method ReadData(fd: int) returns (data: Option<Reading>)
      modifies this
      ensures data == First(Left(old(unread), fd))
      ensures unread == old(unread)[fd := Rest(Left(old(unread), fd))]
    {
      var says := Left(unread, fd);
      data := First(says);
      unread := unread[fd := Rest(says)];
    }
  }

  class ConnectionManager {
    var fds: array<int>
    const list: DPList<int>
    const sockets: Sockets

    ghost predicate Valid()
      reads this, list, list.repr
    {
      list.Valid()
    }

    ghost function State(): (p: Poll)
      reads this, fds, list, list.nodes
      ensures |p.fds| == fds.Length && |p.list| == |list.nodes|
    {
      Poll(list.Elements(), fds[..])
    }

    /** Array and list, and what is still to be read from the connections. */
    ghost function Here(): (w: World)
      reads this, fds, list, list.nodes, sockets
      ensures w.poll == State() && w.unread == sockets.unread
    {
      World(State(), sockets.unread)
    }

    /** init_server: the server's descriptor in slot 0 and at index 0. */
    constructor (serverFd: nat)
      ensures Valid() && fresh(list) && fresh(list.repr) && fresh(fds) && fresh(sockets)
      ensures Here() == World(Start(serverFd), map[])
    {
      sockets := new Sockets();
      var connections := new DPList<int>(x => x, (x, y) => if x > y then 1 else if x < y then -1 else 0);
      list := connections;
      fds := new int[1](_ => serverFd);
      new;
      var _ := list.InsertAtIndex(serverFd, 0, false);
    }

    /** close_connection. The log line of a client, index > 0, is written from the
        record that has just been freed: exactly then a freed record is used. */
    method CloseConnection(conn: int, index: nat) returns (freed: seq<int>, logged: seq<int>)
      requires Valid() && list.nodes != [] && index < fds.Length
      requires conn == ReadFrom(Here(), index)
      modifies this, fds, list, list.repr
      ensures Valid() && State() == Close(old(State()), index)
      ensures (fresh(fds) || fds == old(fds)) && fresh(list.repr - old(list.repr))
      ensures freed == [conn] && logged == if index > 0 then freed else []
    {
      var _, elements := list.RemoveAtIndex(index, true);
      freed, logged := elements, [];
      if index > 0 { logged := [conn]; }
      fds[index] := REMOVE_FD;
    }

    method InsertClient(index: nat, newFd: nat, says: seq<Reading>) returns (sent: seq<(int, Reading)>)
      requires Valid() && 0 < index <= fds.Length
      modifies this, fds, list, list.repr, sockets
      ensures Valid() && State() == Accept(old(State()), index, newFd, First(says))
      ensures sockets.unread == old(sockets.unread)[newFd := Rest(says)]
      ensures sent == if says == [] then [] else [(newFd, says[0])]
      ensures (fresh(fds) || fds == old(fds)) && fresh(list.repr - old(list.repr))
    {
      sockets.Connect(newFd, says);
      Reallocate(index, newFd);
      var data := sockets.ReadData(newFd);
      if data.None? { return []; }
      var node := list.InsertAtIndex(newFd, index, false);
      sent := [(newFd, data.value)];
    }

    /** The array cut or grown to index + 1 entries, the last one the new client's. */
    method Reallocate(index: nat, newFd: nat)
      requires index <= fds.Length
      modifies this`fds
      ensures fresh(fds) && fds[..] == old(fds[..index]) + [newFd]
    {
      var entries := fds[..index] + [newFd];
      var grown := new int[index + 1](i requires 0 <= i < |entries| => entries[i]);
      assert grown[..] == entries;
      fds := grown;
    }

    /** read_data_write_to_buffer: the reading is that of the connection at hand. */
    method ReadOrClose(conn: int, index: nat) returns (sent: seq<(int, Reading)>)
      requires Valid() && list.nodes != [] && 0 < index < fds.Length
      requires conn == ReadFrom(Here(), index)
      modifies this, fds, list, list.repr, sockets
      ensures var says := Left(old(sockets.unread), conn);
        && Valid() && State() == (if says == [] then Close(old(State()), index) else old(State()))
        && sockets.unread == old(sockets.unread)[conn := Rest(says)]
        && sent == if says == [] then [] else [(conn, says[0])]
      ensures (fresh(fds) || fds == old(fds)) && fresh(list.repr - old(list.repr))
    {
      var data := sockets.ReadData(conn);
      if data.Some? { return [(conn, data.value)]; }
      var _, _ := CloseConnection(conn, index);
      sent := [];
    }

    /** One turn of the loop in connmgr_listen_buffer, after poll() has returned. */
    method PollOnce(reports: seq<Report>) returns (sent: seq<(int, Reading)>)
      requires Valid() && WellReported(Here(), reports)
      requires Returns(After(Here(), reports, 0).poll, |reports|)
      modifies this, fds, list, list.repr, sockets
      ensures Valid() && Step(old(Here()), reports, Here())
      ensures sent == Sent(old(Here()), reports)
      ensures (fresh(fds) || fds == old(fds)) && fresh(list.repr - old(list.repr))
    {
      var size := list.Size();
      sent := ServeAll(reports);
      var newSize := list.Size();
      var _ := Compress(fds, size, newSize);
    }

    method ServeAll(reports: seq<Report>) returns (sent: seq<(int, Reading)>)
      requires Valid() && WellReported(Here(), reports)
      modifies this, fds, list, list.repr, sockets
      ensures Valid() && Here() == After(old(Here()), reports, 0)
      ensures sent == Sent(old(Here()), reports)
      ensures (fresh(fds) || fds == old(fds)) && fresh(list.repr - old(list.repr))
    {
      ghost var w := Here();
      sent := [];
      for index := 0 to |reports|
        invariant Valid() && SoFar(w, reports, index, Here(), sent)
        invariant (fresh(fds) || fds == old(fds)) && fresh(list.repr - old(list.repr))
      {
        NextSlot(w, reports, index, Here(), sent);
        var more := Serve(reports, index);
        sent := sent + more;
      }
      AllServed(w, reports, Here(), sent);
    }

    /** Slot index: skipped, closed, or read. */
    method Serve(reports: seq<Report>, index: nat) returns (sent: seq<(int, Reading)>)
      requires Valid() && index < |reports| && Fit(Here(), reports, index)
      modifies this, fds, list, list.repr, sockets
      ensures Valid() && Here() == Turn(old(Here()), reports[index], index, |reports|)
      ensures sent == Taken(old(Here()), reports[index], index)
      ensures (fresh(fds) || fds == old(fds)) && fresh(list.repr - old(list.repr))
    {
      sent := [];
      if reports[index].Silent? { return; }
      var conn := list.GetElementAtIndex(index);
      if reports[index].HungUp? {
        var _, _ := CloseConnection(conn.value, index);
      } else if index == 0 {
        sent := InsertClient(|reports|, reports[index].newFd, reports[index].says);
      } else {
        sent := ReadOrClose(conn.value, index);
      }
    }

    /** connmgr_listen_buffer from the first poll on: the rounds until poll() times
        out or fails, then the server's own connection is closed. */
    method Listen(rounds: seq<seq<Report>>, ghost worlds: seq<World>) returns (sent: seq<(int, Reading)>)
      requires Valid() && Rounds(rounds, worlds) && worlds[0] == Here()
      requires worlds[|rounds|].poll.list != [] && worlds[|rounds|].poll.fds != []
      modifies this, fds, list, list.repr, sockets
      ensures Valid() && State() == Close(worlds[|rounds|].poll, 0)
      ensures (fresh(fds) || fds == old(fds)) && fresh(list.repr - old(list.repr))
      ensures sent == AllSent(rounds, worlds, 0)
    {
      sent := PollAll(rounds, worlds);
      var conn := list.GetElementAtIndex(0);
      var _, _ := CloseConnection(conn.value, 0);
    }

    /** connmgr_free: releases the connections that are left, each exactly once. */
    method Free() returns (freed: seq<int>)
      requires Valid()
      modifies list, list.repr
      ensures Valid() && list.nodes == [] && freed == old(State()).list
    {
      var _, elements := list.Free(true);
      freed := elements;
    }

    method PollAll(rounds: seq<seq<Report>>, ghost worlds: seq<World>) returns (sent: seq<(int, Reading)>)
      requires Valid() && Rounds(rounds, worlds) && worlds[0] == Here()
      modifies this, fds, list, list.repr, sockets
      ensures Valid() && Here() == worlds[|rounds|]
      ensures sent == AllSent(rounds, worlds, 0)
      ensures (fresh(fds) || fds == old(fds)) && fresh(list.repr - old(list.repr))
    {
      sent := [];
      for k := 0 to |rounds|
        invariant Valid() && Here() == worlds[k]
        invariant sent + AllSent(rounds, worlds, k) == AllSent(rounds, worlds, 0)
        invariant (fresh(fds) || fds == old(fds)) && fresh(list.repr - old(list.repr))
      {
        StepAt(rounds, worlds, k);
        var more := PollOnce(rounds[k]);
        Assoc(sent, more, AllSent(rounds, worlds, k + 1));
        sent := sent + more;
      }
    }
  }

  /** In world v, with slots up to i handled, sent has been passed on. */
  ghost predicate SoFar(w: World, reports: seq<Report>, i: nat, v: World, sent: seq<(int, Reading)>) {
    && Fit(w, reports, 0) && Fit(v, reports, i)
    && After(v, reports, i) == After(w, reports, 0)
    && sent + SentFrom(v, reports, i) == SentFrom(w, reports, 0)
  }

  lemma AllServed(w: World, reports: seq<Report>, v: World, sent: seq<(int, Reading)>)
    requires SoFar(w, reports, |reports|, v, sent)
    ensures v == After(w, reports, 0) && sent == SentFrom(w, reports, 0)
  {
  }

  lemma NextSlot(w: World, reports: seq<Report>, i: nat, v: World, sent: seq<(int, Reading)>)
    requires i < |reports| && SoFar(w, reports, i, v, sent)
    ensures SoFar(w, reports, i + 1, Turn(v, reports[i], i, |reports|), sent + Taken(v, reports[i], i))
  {
    Served(v, reports, i);
    Assoc(sent, Taken(v, reports[i], i), SentFrom(Turn(v, reports[i], i, |reports|), reports, i + 1));
  }

  /** The connection manager from its first poll to its end. (Closing the server's
      connection asserts that a connection is left.) */
  method ListenAndFree(serverFd: nat, rounds: seq<seq<Report>>, ghost worlds: seq<World>)
    returns (sent: seq<(int, Reading)>)
    requires WorldRun(serverFd, rounds, worlds) && worlds[|rounds|].poll.list != []
    ensures sent == AllSent(rounds, worlds, 0)
    ensures AllBenign(rounds, worlds) ==> (sent == AllSpoken(rounds, worlds, 0) <==> AllGood(rounds, worlds))
  {
    var manager := new ConnectionManager(serverFd);
    SlotsLeft(serverFd, rounds, worlds);
    sent := manager.Listen(rounds, worlds);
    var _ := manager.Free();
    if AllBenign(rounds, worlds) {
      RunReadIsSpokenIff(serverFd, rounds, worlds);
    }
  }

  lemma SlotsLeft(serverFd: nat, rounds: seq<seq<Report>>, worlds: seq<World>)
    requires WorldRun(serverFd, rounds, worlds)
    ensures worlds[|rounds|].poll.fds != []
  {
    if rounds != [] {
      StepAt(rounds, worlds, |rounds| - 1);
    }
  }
}
