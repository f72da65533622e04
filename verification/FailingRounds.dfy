/** Rounds that the connection manager does not cope with, each at the end of a run
    that reaches it from the state init_server leaves: clients connect one by one,
    and then poll() reports the round. */
module FailingRounds {
  import opened Wrappers
  import opened Readings
  import opened ListSpec
  import opened Compaction
  import opened PollRound
  import opened Sources
  import opened Clients
  import opened Polling

  /** A round in which a client joins and nothing else happens. */
  function JoinRound(n: nat, fd: nat, says: seq<Reading>): (reports: seq<Report>)
    requires n > 0
    ensures |reports| == n && reports[0] == Ready(fd, says)
    ensures forall i :: 0 < i < n ==> reports[i].Silent?
  {
    [Ready(fd, says)] + seq(n - 1, _ => Silent)
  }

  /** The connections fds, aligned, with streams[i] still to be read from fds[i]. */
  ghost predicate Connected(w: World, fds: seq<nat>, streams: seq<seq<Reading>>)
    requires |streams| == |fds|
  {
    w.poll == Poll(fds, fds) && forall i :: 0 <= i < |fds| ==> Left(w.unread, fds[i]) == streams[i]
  }

  /** Every list of connections, with anything still to be read from the clients, is
      reached by joining rounds alone, in which each client says hello. */
  lemma {:induction false} Reach(fds: seq<nat>, streams: seq<seq<Reading>>, hello: Reading)
    returns (rounds: seq<seq<Report>>, worlds: seq<World>)
    requires fds != [] && Distinct(fds) && |streams| == |fds| && streams[0] == []
    ensures WorldRun(fds[0], rounds, worlds) && Connected(worlds[|rounds|], fds, streams)
    ensures Aligned(worlds[|rounds|].poll)
  {
    if |fds| == 1 {
      rounds, worlds := [], [World(Start(fds[0]), map[])];
      assert fds == [fds[0]];
    } else {
      var n := |fds| - 1;
      rounds, worlds := Reach(fds[..n], streams[..n], hello);
      var reports := JoinRound(n, fds[n], [hello] + streams[n]);
      var w' := JoinStep(worlds[|rounds|], fds, streams, reports);
      ExtendRun(fds[0], rounds, worlds, reports, w');
      rounds, worlds := rounds + [reports], worlds + [w'];
    }
  }

  /** A joining round takes the new client's first reading and appends it. */
  lemma JoinStep(w: World, fds: seq<nat>, streams: seq<seq<Reading>>, reports: seq<Report>) returns (w': World)
    requires |streams| == |fds| > 1 && Distinct(fds)
    requires Connected(w, fds[..|fds| - 1], streams[..|fds| - 1]) && Aligned(w.poll)
    requires |reports| == |fds| - 1 && (forall i :: 0 < i < |reports| ==> reports[i].Silent?)
    requires reports[0].Ready? && reports[0].newFd == fds[|fds| - 1]
    requires reports[0].says != [] && reports[0].says[1..] == streams[|fds| - 1]
    ensures Step(w, reports, w') && Connected(w', fds, streams) && Aligned(w'.poll)
  {
    var n := |reports|;
    assert fds == fds[..n] + [fds[n]];
    var events := JoinOutcomes(w, reports);
    CompressReturnsIff(w.poll, events);
    JoinAlone(w.poll, events);
    w' := World(Compressed(After(w, reports, 0).poll, n), After(w, reports, 0).unread);
    forall i | 0 <= i < |fds| ensures Left(w'.unread, fds[i]) == streams[i] {
      assert i < n ==> fds[i] == fds[..n][i] && streams[i] == streams[..n][i];
    }
  }

  lemma JoinOutcomes(w: World, reports: seq<Report>) returns (events: seq<Event>)
    requires WellReported(w, reports) && reports[0].Ready? && reports[0].says != []
    requires forall i :: 0 < i < |reports| ==> reports[i].Silent?
    ensures |events| == |reports| && WellFormed(w.poll, events)
    ensures Joins(events) && events[0].newFd == reports[0].newFd && CloseCount(events, 0) == 0
    ensures Handled(w.poll, events) == After(w, reports, 0).poll
    ensures After(w, reports, 0).unread == w.unread[reports[0].newFd := reports[0].says[1..]]
  {
    events := Outcomes(w, reports);
    var v := Turn(w, reports[0], 0, |reports|);
    SilentRest(v, reports, 1);
    assert events[0] == Outcome(w, reports[0], 0) && events[1..] == OutcomesFrom(v, reports, 1);
    assert forall i :: 1 <= i < |events| ==> events[i] == events[1..][i - 1];
    OpenCount(events, 0, |events|);
    assert events[0..] == events;
    HandledAs(w, reports, 0, events);
  }

  lemma {:induction false} SilentRest(w: World, reports: seq<Report>, i: nat)
    requires Fit(w, reports, i) && forall j :: i <= j < |reports| ==> reports[j].Silent?
    ensures After(w, reports, i) == w
    ensures forall j :: 0 <= j < |reports| - i ==> OutcomesFrom(w, reports, i)[j] == Quiet
    decreases |reports| - i
  {
    if i < |reports| {
      SilentRest(w, reports, i + 1);
    }
  }

  lemma ExtendRun(serverFd: nat, rounds: seq<seq<Report>>, worlds: seq<World>, reports: seq<Report>, w': World)
    requires WorldRun(serverFd, rounds, worlds) && Step(worlds[|rounds|], reports, w')
    ensures WorldRun(serverFd, rounds + [reports], worlds + [w'])
  {
    var rounds', worlds' := rounds + [reports], worlds + [w'];
    forall k | 0 <= k < |rounds'| ensures Step(worlds'[k], rounds'[k], worlds'[k + 1]) {
      if k < |rounds| {
        assert Step(worlds[k], rounds[k], worlds[k + 1]);
      }
    }
  }

  // ----- rounds that end misaligned, or never -----

  /** In these rounds no slot but the server's is read. */
  lemma HangupOutcomes(w: World, reports: seq<Report>, events: seq<Event>)
    requires WellReported(w, reports) && |events| == |reports|
    requires events[0] == Outcome(w, reports[0], 0)
    requires forall i :: 0 < i < |reports| ==> !reports[i].Ready?
    requires forall i :: 0 < i < |reports| ==> events[i] == if reports[i].HungUp? then Hangup else Quiet
    ensures Outcomes(w, reports) == events && HandleFrom(w.poll, events, 0) == After(w, reports, 0).poll
  {
    NotRead(Turn(w, reports[0], 0, |reports|), reports, 1, events);
    assert Outcomes(w, reports) == [events[0]] + events[1..] == events;
    assert events[0..] == events;
    HandledAs(w, reports, 0, events);
  }

  lemma {:induction false} NotRead(w: World, reports: seq<Report>, i: nat, events: seq<Event>)
    requires Fit(w, reports, i) && |events| == |reports|
    requires forall j :: i <= j < |reports| ==> !reports[j].Ready?
    requires forall j :: i <= j < |reports| ==> events[j] == if reports[j].HungUp? then Hangup else Quiet
    ensures OutcomesFrom(w, reports, i) == events[i..]
    decreases |reports| - i
  {
    if i < |reports| {
      NotRead(Turn(w, reports[i], i, |reports|), reports, i + 1, events);
      assert events[i..] == [events[i]] + events[i + 1..];
    }
  }

  /** A client joins while the two others hang up: compress never returns. */
  lemma JoinBesideTwoCloses(server: nat, a: nat, b: nat, c: nat, says: seq<Reading>)
    returns (rounds: seq<seq<Report>>, worlds: seq<World>)
    requires Distinct([server, a, b, c]) && says != []
    ensures WorldRun(server, rounds, worlds)
    ensures var w, reports := worlds[|rounds|], [Ready(c, says), HungUp, HungUp];
      && WellReported(w, reports)
      && !Returns(After(w, reports, 0).poll, |reports|)
  {
    Apart(server, a, b, c);
    rounds, worlds := Reach([server, a, b], [[], [], []], says[0]);
    var reports, events := [Ready(c, says), HungUp, HungUp], [Readable(c, Some(says[0])), Hangup, Hangup];
    HangupOutcomes(worlds[|rounds|], reports, events);
    assert CloseCount(events, 3) == 0 && CloseCount(events, 2) == 1 && CloseCount(events, 1) == 2;
    CompressReturnsIff(worlds[|rounds|].poll, events);
  }

  /** A client joins while another hangs up: compress returns at once, and leaves
      the hole where it is. */
  lemma JoinBesideOneClose(server: nat, a: nat, b: nat, c: nat, says: seq<Reading>)
    returns (rounds: seq<seq<Report>>, worlds: seq<World>)
    requires Distinct([server, a, b, c]) && says != []
    ensures WorldRun(server, rounds, worlds)
    ensures var w, reports := worlds[|rounds|], [Ready(c, says), HungUp, Silent];
      && WellReported(w, reports)
      && Returns(After(w, reports, 0).poll, |reports|)
      && !Aligned(Compressed(After(w, reports, 0).poll, |reports|))
  {
    Apart(server, a, b, c);
    rounds, worlds := Reach([server, a, b], [[], [], []], says[0]);
    var reports, events := [Ready(c, says), HungUp, Silent], [Readable(c, Some(says[0])), Hangup, Quiet];
    HangupOutcomes(worlds[|rounds|], reports, events);
    assert CloseCount(events, 3) == 0 && CloseCount(events, 2) == 0 && CloseCount(events, 1) == 1;
    CompressReturnsIff(worlds[|rounds|].poll, events);
    AlignedIffBenign(worlds[|rounds|].poll, events);
  }

  /** Two connections hang up and the one after them stays: the list loses that one
      in place of the second, which the list keeps and no slot watches any more. */
  lemma TwoClosesThenOpen(server: nat, a: nat, b: nat, c: nat, hello: Reading)
    returns (rounds: seq<seq<Report>>, worlds: seq<World>)
    requires Distinct([server, a, b, c])
    ensures WorldRun(server, rounds, worlds)
    ensures var w, reports := worlds[|rounds|], [Silent, HungUp, HungUp, Silent];
      && WellReported(w, reports)
      && Returns(After(w, reports, 0).poll, |reports|)
      && Compressed(After(w, reports, 0).poll, |reports|)
           == Poll([server, b], [server, c, REMOVE_FD, REMOVE_FD])
  {
    rounds, worlds := Reach([server, a, b, c], [[], [], [], []], hello);
    var w, reports := worlds[|rounds|], [Silent, HungUp, HungUp, Silent];
    var v, _ := TwoHangups(w, reports, server, a, b, c);
    PackTwo(server, b, c);
    SilentRest(v, reports, 3);
  }

  /** compress brings the last descriptor to the front, beside the wrong connection. */
  lemma PackTwo(server: nat, b: nat, c: nat)
    ensures var q := Poll([server, b], [server, REMOVE_FD, REMOVE_FD, c]);
      Returns(q, 4) && Compressed(q, 4) == Poll([server, b], [server, c, REMOVE_FD, REMOVE_FD])
  {
    var fds: seq<int> := [server, REMOVE_FD, REMOVE_FD, c];
    assert fds[..4] == fds && fds[4..] == [];
    Packing(server, c);
    SettleCompacts(fds, 4, 2);
    assert Settle(fds, 4, 2) == [server, c] + Holes(2) == [server, c, REMOVE_FD, REMOVE_FD];
  }

  lemma PackOne(server: nat)
    ensures Returns(Poll([server], [server, REMOVE_FD, REMOVE_FD, REMOVE_FD]), 4)
  {
    var fds: seq<int> := [server, REMOVE_FD, REMOVE_FD, REMOVE_FD];
    assert fds[..4] == fds;
    Packing(server, REMOVE_FD);
  }

  /** What two hangups in slots 1 and 2 do to four connections. */
  lemma TwoHangups(w: World, reports: seq<Report>, server: nat, a: nat, b: nat, c: nat)
    returns (v: World, sent: seq<(int, Reading)>)
    requires w.poll == Poll([server, a, b, c], [server, a, b, c]) && |reports| == 4
    requires reports[0].Silent? && reports[1].HungUp? && reports[2].HungUp?
    ensures v == World(Poll([server, b], [server, REMOVE_FD, REMOVE_FD, c]), w.unread)
    ensures After(w, reports, 0) == After(v, reports, 3) && SentFrom(w, reports, 0) == SentFrom(v, reports, 3)
    ensures sent == SentFrom(w, reports, 0)
  {
    var w2 := World(Poll([server, b, c], [server, REMOVE_FD, b, c]), w.unread);
    v := World(Poll([server, b], [server, REMOVE_FD, REMOVE_FD, c]), w.unread);
    assert Turn(w, reports[1], 1, 4) == w2;
    assert Turn(w2, reports[2], 2, 4) == v;
    Served(w, reports, 0);
    Served(w, reports, 1);
    Served(w2, reports, 2);
    sent := SentFrom(w, reports, 0);
  }

  lemma Packing(x: nat, y: int)
    ensures Descriptors([x, REMOVE_FD, REMOVE_FD, y]) == if y == REMOVE_FD then [x as int] else [x, y]
    ensures Packed([x, REMOVE_FD, REMOVE_FD, y])
         == (if y == REMOVE_FD then [x as int] else [x, y]) + Holes(if y == REMOVE_FD then 3 else 2)
  {
    var s := [x, REMOVE_FD, REMOVE_FD, y];
    assert s[1..] == [REMOVE_FD, REMOVE_FD, y] && s[1..][1..] == [REMOVE_FD, y] && s[1..][1..][1..] == [y];
    assert Descriptors([y]) == if y == REMOVE_FD then [] else [y];
    assert Descriptors([REMOVE_FD, y]) == Descriptors([y]);
    assert Descriptors([REMOVE_FD, REMOVE_FD, y]) == Descriptors([REMOVE_FD, y]);
  }

  // ----- rounds that read from the wrong connection -----

  /** One connection hangs up and the next has x to say: the reading passed on is the
      next one of the connection after it, which poll() did not report, and x stays
      unread. The round keeps the alignment. */
  lemma MisreadAfterClose(server: nat, a: nat, b: nat, c: nat, x: Reading, y: Reading)
    returns (rounds: seq<seq<Report>>, worlds: seq<World>)
    requires Distinct([server, a, b, c])
    ensures WorldRun(server, rounds, worlds)
    ensures var w, reports := worlds[|rounds|], [Silent, HungUp, Ready(0, []), Silent];
      && Aligned(w.poll) && BenignAt(w, reports)
      && Spoken(w, reports) == [(b as int, x)] && Sent(w, reports) == [(c as int, y)]
      && Left(After(w, reports, 0).unread, b) == [x]
  {
    var fds := [server, a, b, c];
    rounds, worlds := Reach(fds, [[], [], [x], [y]], x);
    var w, reports := worlds[|rounds|], [Silent, HungUp, Ready(0, []), Silent];
    assert Left(w.unread, fds[2]) == [x] && Left(w.unread, fds[3]) == [y];
    OneSpeaks(w, reports, 2, x);
    OneHangup(w, reports);
    MisreadTurns(w, reports, server, a, b, c, y);
  }

  /** Two connections hang up and the one after them has d to say: d is not passed on.
      The second close has closed that connection, and the read is made from one that
      has hung up (with assertions on, the process aborts there). */
  lemma LostAfterTwoCloses(server: nat, a: nat, b: nat, c: nat, d: Reading)
    returns (rounds: seq<seq<Report>>, worlds: seq<World>)
    requires Distinct([server, a, b, c])
    ensures WorldRun(server, rounds, worlds)
    ensures var w, reports := worlds[|rounds|], [Silent, HungUp, HungUp, Ready(0, [])];
      && Aligned(w.poll) && Polled(w, reports)
      && Returns(After(w, reports, 0).poll, |reports|)
      && Spoken(w, reports) == [(c as int, d)] && Sent(w, reports) == []
      && After(w, reports, 0).poll.list == [server] && Left(After(w, reports, 0).unread, c) == [d]
  {
    var fds := [server, a, b, c];
    rounds, worlds := Reach(fds, [[], [], [], [d]], d);
    var w, reports := worlds[|rounds|], [Silent, HungUp, HungUp, Ready(0, [])];
    assert Left(w.unread, fds[2]) == [] && Left(w.unread, fds[3]) == [d] && fds[2] != fds[3];
    OneSpeaks(w, reports, 3, d);
    var v, sent := TwoHangups(w, reports, server, a, b, c);
    LastLost(v, reports, server, b, c);
  }

  /** Slot 3 is read from b, which has nothing to say, and closes it. */
  lemma LastLost(v: World, reports: seq<Report>, server: nat, b: nat, c: nat)
    requires v.poll == Poll([server, b], [server, REMOVE_FD, REMOVE_FD, c]) && b != c
    requires |reports| == 4 && reports[3].Ready? && Left(v.unread, b) == []
    ensures SentFrom(v, reports, 3) == [] && After(v, reports, 3).poll.list == [server]
    ensures Returns(After(v, reports, 3).poll, 4)
    ensures Left(After(v, reports, 3).unread, c) == Left(v.unread, c)
  {
    var q := Poll([server], [server, REMOVE_FD, REMOVE_FD, REMOVE_FD]);
    assert Close(v.poll, 3) == q;
    assert Turn(v, reports[3], 3, 4) == World(q, v.unread[b := []]) && Taken(v, reports[3], 3) == [];
    Served(v, reports, 3);
    PackOne(server);
  }

  /** Four connections of which only that of slot k is ready, with x to say next. */
  lemma OneSpeaks(w: World, reports: seq<Report>, k: nat, x: Reading)
    requires WellReported(w, reports) && |reports| == 4 && 0 < k < 4 && reports[k].Ready?
    requires forall i :: 0 <= i < 4 && i != k ==> !reports[i].Ready?
    requires Left(w.unread, w.poll.fds[k]) == [x]
    ensures Polled(w, reports) && Spoken(w, reports) == [(w.poll.fds[k], x)]
  {
    var list, events := w.poll.fds[..4], Expected(w, reports);
    forall i | 0 <= i < 4 ensures HasReading(w.unread, w.poll.fds[i], reports[i], i) {
    }
    assert forall i :: 0 <= i < 4 && i != k ==> !Delivers(events, i);
    assert OwnFrom(list, events, 4) == [];
    NothingOwn(list, events, k + 1);
    assert OwnFrom(list, events, k) == [(w.poll.fds[k], x)];
    SkipOwn(list, events, 0, k);
  }

  lemma {:induction false} NothingOwn(list: seq<int>, events: seq<Event>, i: nat)
    requires i <= |events| == |list| && forall j :: i <= j < |events| ==> !Delivers(events, j)
    ensures OwnFrom(list, events, i) == []
    decreases |events| - i
  {
    if i < |events| {
      NothingOwn(list, events, i + 1);
    }
  }

  lemma {:induction false} SkipOwn(list: seq<int>, events: seq<Event>, i: nat, k: nat)
    requires i <= k <= |events| == |list| && forall j :: i <= j < k ==> !Delivers(events, j)
    ensures OwnFrom(list, events, i) == OwnFrom(list, events, k)
    decreases k - i
  {
    if i < k {
      SkipOwn(list, events, i + 1, k);
    }
  }

  /** One hangup, in slot 1, and every ready connection has something to say. */
  lemma OneHangup(w: World, reports: seq<Report>)
    requires Polled(w, reports) && |reports| == 4 && reports[0].Silent?
    requires forall i :: 0 <= i < 4 ==> (reports[i].HungUp? <==> i == 1)
    ensures BenignAt(w, reports)
  {
    var events := Expected(w, reports);
    forall i | 0 <= i < 4 && i != 1 ensures !Closes(events, i) {
      assert HasReading(w.unread, w.poll.fds[i], reports[i], i);
    }
    assert events[0] == Quiet;
  }

  lemma MisreadTurns(w: World, reports: seq<Report>, server: nat, a: nat, b: nat, c: nat, y: Reading)
    requires w.poll == Poll([server, a, b, c], [server, a, b, c]) && b != c
    requires reports == [Silent, HungUp, Ready(0, []), Silent] && Left(w.unread, c) == [y]
    ensures WellReported(w, reports)
    ensures Sent(w, reports) == [(c as int, y)]
    ensures Left(After(w, reports, 0).unread, b) == Left(w.unread, b)
  {
    var w2 := World(Poll([server, b, c], [server, REMOVE_FD, b, c]), w.unread);
    var w3 := World(w2.poll, w.unread[c := []]);
    assert Turn(w, reports[1], 1, 4) == w2;
    ReadTurn(w2, reports[2], c, y);
    Served(w, reports, 0);
    Served(w, reports, 1);
    Served(w2, reports, 2);
    Served(w3, reports, 3);
  }

  /** A ready slot 2 whose index holds c by then. */
  lemma ReadTurn(w: World, r: Report, c: nat, y: Reading)
    requires |w.poll.list| == 3 && |w.poll.fds| == 4 && w.poll.list[2] == c
    requires r.Ready? && Left(w.unread, c) == [y]
    ensures Turn(w, r, 2, 4) == World(w.poll, w.unread[c := []])
    ensures Taken(w, r, 2) == [(c as int, y)]
  {
    assert Rest([y]) == [];
  }

  lemma Apart(server: nat, a: nat, b: nat, c: nat)
    requires Distinct([server, a, b, c])
    ensures Distinct([server, a, b]) && c !in [server, a, b]
  {
    var fds := [server, a, b, c];
    assert fds[0] != fds[3] && fds[1] != fds[3] && fds[2] != fds[3];
    assert [server, a, b] == fds[..3];
  }
}
