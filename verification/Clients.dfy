/** The clients behind the poll rounds: what each connection has still to be read,
    what poll() reports of it, and which of its readings the manager passes on.

    A read takes the next reading of whatever connection it is made from. A
    connection that has none yet is waited for, so only one that has ended, with
    nothing left to read, gives no reading. */
module Clients {
  import opened Wrappers
  import opened Readings
  import opened ListSpec
  import opened PollRound
  import opened Sources

  /** What poll() reports for a slot. In slot 0, the server, Ready is a new client on
      descriptor newFd that is going to say all this; elsewhere neither has meaning. */
  datatype Report = Silent | HungUp | Ready(newFd: nat, says: seq<Reading>)

  /** unread: what each connection will have said before it ends, less what has been
      read from it. */
  datatype World = World(poll: Poll, unread: map<int, seq<Reading>>)

  function Left(unread: map<int, seq<Reading>>, fd: int): seq<Reading> {
    if fd in unread then unread[fd] else []
  }

  function First(s: seq<Reading>): Option<Reading> {
    if |s| == 0 then None else Some(s[0])
  }

  function Rest(s: seq<Reading>): seq<Reading> {
    if |s| == 0 then [] else s[1..]
  }

  /** poll() was given a slot for each connection, and a new client comes on a
      descriptor that no connection has. */
  predicate WellReported(w: World, reports: seq<Report>) {
    && 0 < |reports| == |w.poll.list| <= |w.poll.fds|
    && (reports[0].Ready? ==> reports[0].newFd !in w.poll.list)
  }

  // ----- one round -----

  /** What becomes of slot i: a ready slot is read from the connection at its index
      by then, the server's slot from the new client. */
  function Outcome(w: World, r: Report, i: nat): (e: Event)
    requires w.poll.list != []
  {
    match r
    case Silent => Quiet
    case HungUp => Hangup
    case Ready(newFd, says) => Readable(newFd, First(Held(w, r, i, if i == 0 then newFd else ReadFrom(w, i))))
  }

  /** The connection that a read for slot i > 0 is made from. */
  function ReadFrom(w: World, i: nat): int
    requires w.poll.list != []
  {
    w.poll.list[Clamp(i, |w.poll.list|)]
  }

  /** What a connection has to say when slot i is handled, a new client included. */
  function Held(w: World, r: Report, i: nat, fd: int): seq<Reading> {
    if i == 0 && r.Ready? && fd == r.newFd then r.says else Left(w.unread, fd)
  }

  /** Slot i of n. */
  function Turn(w: World, r: Report, i: nat, n: nat): (w': World)
    requires i < n <= |w.poll.fds| && w.poll.list != []
    ensures n <= |w'.poll.fds| && |w'.poll.list| >= |w.poll.list| - 1
  {
    var fd := if i == 0 && r.Ready? then r.newFd else ReadFrom(w, i);
    World(HandleEvent(w.poll, Outcome(w, r, i), i, n),
          if r.Ready? then w.unread[fd := Rest(Held(w, r, i, fd))] else w.unread)
  }

  /** The slots from i on can be handled. */
  predicate Fit(w: World, reports: seq<Report>, i: nat) {
    i <= |reports| <= |w.poll.fds| && |w.poll.list| >= |reports| - i
  }

  /** The world after the slots from i on. */
  function After(w: World, reports: seq<Report>, i: nat): (w': World)
    requires Fit(w, reports, i)
    ensures |reports| <= |w'.poll.fds|
    decreases |reports| - i
  {
    if i == |reports| then w else After(Turn(w, reports[i], i, |reports|), reports, i + 1)
  }

  /** What becomes of the slots from i on. */
  function OutcomesFrom(w: World, reports: seq<Report>, i: nat): (events: seq<Event>)
    requires Fit(w, reports, i)
    ensures |events| == |reports| - i
    decreases |reports| - i
  {
    if i == |reports| then []
    else [Outcome(w, reports[i], i)] + OutcomesFrom(Turn(w, reports[i], i, |reports|), reports, i + 1)
  }

  function Outcomes(w: World, reports: seq<Report>): (events: seq<Event>)
    requires WellReported(w, reports)
    ensures |events| == |reports| && WellFormed(w.poll, events)
  {
    OutcomesFrom(w, reports, 0)
  }

  /** The reading passed on for slot i, with the connection it is from. */
  function Taken(w: World, r: Report, i: nat): (one: seq<(int, Reading)>)
    requires w.poll.list != []
    ensures |one| <= 1
  {
    var e := Outcome(w, r, i);
    if e.Readable? && e.data.Some? then [(SourceOf(w.poll, e, i), e.data.value)] else []
  }

  /** The readings passed on from slot i on. */
  function SentFrom(w: World, reports: seq<Report>, i: nat): (sent: seq<(int, Reading)>)
    requires Fit(w, reports, i)
    decreases |reports| - i
  {
    if i == |reports| then []
    else Taken(w, reports[i], i) + SentFrom(Turn(w, reports[i], i, |reports|), reports, i + 1)
  }

  function Sent(w: World, reports: seq<Report>): (sent: seq<(int, Reading)>)
    requires WellReported(w, reports)
  {
    SentFrom(w, reports, 0)
  }

  /** One slot, and then the rest. */
  lemma Served(w: World, reports: seq<Report>, i: nat)
    requires Fit(w, reports, i) && i < |reports|
    ensures var w' := Turn(w, reports[i], i, |reports|);
      && After(w, reports, i) == After(w', reports, i + 1)
      && SentFrom(w, reports, i) == Taken(w, reports[i], i) + SentFrom(w', reports, i + 1)
  {
  }

  /** Array and list go through the round of what becomes of the slots. */
  lemma {:induction false} HandledAs(w: World, reports: seq<Report>, i: nat, events: seq<Event>)
    requires Fit(w, reports, i) && |events| == |reports| && events[i..] == OutcomesFrom(w, reports, i)
    ensures HandleFrom(w.poll, events, i) == After(w, reports, i).poll
    decreases |reports| - i
  {
    if i < |reports| {
      var w' := Turn(w, reports[i], i, |reports|);
      assert events[i] == events[i..][0] && events[i + 1..] == events[i..][1..];
      HandledAs(w', reports, i + 1, events);
    }
  }

  // ----- what is passed on from a connection is what it said -----

  /** The readings from one connection. */
  function OfSource(sent: seq<(int, Reading)>, fd: int): seq<Reading> {
    if |sent| == 0 then []
    else (if sent[0].0 == fd then [sent[0].1] else []) + OfSource(sent[1..], fd)
  }

  lemma {:induction false} OfJoin(s: seq<(int, Reading)>, t: seq<(int, Reading)>, fd: int)
    ensures OfSource(s + t, fd) == OfSource(s, fd) + OfSource(t, fd)
  {
    if |s| == 0 {
      assert s + t == t;
    } else {
      OfJoin(s[1..], t, fd);
      assert (s + t)[0] == s[0] && (s + t)[1..] == s[1..] + t;
      Assoc(if s[0].0 == fd then [s[0].1] else [], OfSource(s[1..], fd), OfSource(t, fd));
    }
  }

  lemma {:induction false} ReadsInOrder(w: World, reports: seq<Report>, i: nat, fd: int)
    requires Fit(w, reports, i)
    ensures OfSource(SentFrom(w, reports, i), fd) + Left(After(w, reports, i).unread, fd) == HeldAt(w, reports, i, fd)
    decreases |reports| - i
  {
    if i < |reports| {
      var w', one := Turn(w, reports[i], i, |reports|), Taken(w, reports[i], i);
      ReadsInOrder(w', reports, i + 1, fd);
      TurnReads(w, reports[i], i, |reports|, fd);
      OneThenRest(one, SentFrom(w', reports, i + 1), Left(After(w', reports, i + 1).unread, fd),
                  Left(w'.unread, fd), fd);
    }
  }

  function HeldAt(w: World, reports: seq<Report>, i: nat, fd: int): seq<Reading>
    requires i <= |reports|
  {
    if i < |reports| then Held(w, reports[i], i, fd) else Left(w.unread, fd)
  }

  lemma TurnReads(w: World, r: Report, i: nat, n: nat, fd: int)
    requires i < n <= |w.poll.fds| && w.poll.list != []
    ensures OfSource(Taken(w, r, i), fd) + Left(Turn(w, r, i, n).unread, fd) == Held(w, r, i, fd)
  {
    if r.Ready? {
      var from, says := ReadyTurn(w, r, i, n);
      if says != [] {
        OfOne((from, says[0]), fd);
        assert [says[0]] + says[1..] == says;
      }
    }
  }

  /** A ready slot takes the next reading of the connection it is read from. */
  lemma ReadyTurn(w: World, r: Report, i: nat, n: nat) returns (from: int, says: seq<Reading>)
    requires i < n <= |w.poll.fds| && w.poll.list != [] && r.Ready?
    ensures says == Held(w, r, i, from) && (i == 0 ==> from == r.newFd)
    ensures Taken(w, r, i) == if says == [] then [] else [(from, says[0])]
    ensures Turn(w, r, i, n).unread == w.unread[from := Rest(says)]
  {
    from := if i == 0 then r.newFd else ReadFrom(w, i);
    says := Held(w, r, i, from);
  }

  lemma OfOne(x: (int, Reading), fd: int)
    ensures OfSource([x], fd) == if x.0 == fd then [x.1] else []
  {
    assert [x][1..] == [];
  }

  lemma OneThenRest(one: seq<(int, Reading)>, rest: seq<(int, Reading)>, left: seq<Reading>, mid: seq<Reading>, fd: int)
    requires OfSource(rest, fd) + left == mid
    ensures OfSource(one + rest, fd) + left == OfSource(one, fd) + mid
  {
    OfJoin(one, rest, fd);
    Assoc(OfSource(one, fd), OfSource(rest, fd), left);
  }

  /** In any round, aligned or not: what is passed on from a connection, followed by
      what is left unread of it, is what it had to say. Nothing it says is doubled,
      moved or made up; what is not passed on is still unread. */
  lemma RoundReadsInOrder(w: World, reports: seq<Report>, fd: int)
    requires WellReported(w, reports)
    ensures OfSource(Sent(w, reports), fd) + Left(After(w, reports, 0).unread, fd) == Held(w, reports[0], 0, fd)
  {
    ReadsInOrder(w, reports, 0, fd);
  }
}
