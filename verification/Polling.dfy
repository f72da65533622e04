/** When the manager reads what the connections it polled have to say: one round, and
    a whole run. */
module Polling {
  import opened Readings
  import opened PollRound
  import opened Sources
  import opened Clients

  /** What would become of the slots if each were read from the connection it
      watches: known when poll() returns, before any slot is handled. */
  function Expected(w: World, reports: seq<Report>): (events: seq<Event>)
    requires WellReported(w, reports)
    ensures |events| == |reports| && WellFormed(w.poll, events)
    ensures forall i :: 0 <= i < |events| ==> events[i] == ExpectedAt(w.unread, w.poll.fds[i], reports[i], i)
  {
    seq(|reports|, i requires 0 <= i < |reports| => ExpectedAt(w.unread, w.poll.fds[i], reports[i], i))
  }

  function ExpectedAt(unread: map<int, seq<Reading>>, fd: int, r: Report, i: nat): (e: Event) {
    match r
    case Silent => Quiet
    case HungUp => Hangup
    case Ready(newFd, says) => Readable(newFd, First(if i == 0 then says else Left(unread, fd)))
  }

  /** poll() reports a slot as ready only if its connection has a reading to deliver. */
  ghost predicate Polled(w: World, reports: seq<Report>) {
    && WellReported(w, reports)
    && forall i :: 0 <= i < |reports| ==> HasReading(w.unread, w.poll.fds[i], reports[i], i)
  }

  ghost predicate HasReading(unread: map<int, seq<Reading>>, fd: int, r: Report, i: nat) {
    i > 0 && r.Ready? ==> Left(unread, fd) != []
  }

  /** What the polled connections have to say in the round, slot by slot. */
  function Spoken(w: World, reports: seq<Report>): (spoken: seq<(int, Reading)>)
    requires WellReported(w, reports)
  {
    OwnFrom(w.poll.fds[..|reports|], Expected(w, reports), 0)
  }

  // ----- one round -----

  /** A read that succeeds is made for a slot whose own connection speaks. */
  ghost predicate Answered(reports: seq<Report>, events: seq<Event>, i: nat) {
    |reports| == |events| && forall j :: i <= j < |events| ==> AnsweredAt(reports[j], events, j)
  }

  ghost predicate AnsweredAt(r: Report, events: seq<Event>, j: nat)
    requires j < |events|
  {
    r.Ready? && (j > 0 || r.says != []) ==> Delivers(events, j)
  }

  /** So no more is read than is said. */
  lemma {:induction false} NoMoreThanSpoken(w: World, reports: seq<Report>, i: nat, list: seq<int>, events: seq<Event>)
    requires Fit(w, reports, i) && Answered(reports, events, i) && |list| == |events|
    ensures |SentFrom(w, reports, i)| <= |OwnFrom(list, events, i)|
    decreases |reports| - i
  {
    if i < |reports| {
      NoMoreThanSpoken(Turn(w, reports[i], i, |reports|), reports, i + 1, list, events);
      assert AnsweredAt(reports[i], events, i);
    }
  }

  /** The connections of the slots from i on have still to say what was expected. */
  ghost predicate Foreseen(w: World, reports: seq<Report>, i: nat, list: seq<int>, events: seq<Event>)
    requires |reports| == |list| == |events|
  {
    forall j :: i <= j < |events| ==> events[j] == ExpectedAt(w.unread, list[j], reports[j], j)
  }

  /** A slot read from its own connection becomes what was expected, and takes
      nothing from the others. */
  lemma {:induction false} OwnTurn(w: World, reports: seq<Report>, i: nat, p: Poll, events: seq<Event>)
    requires Aligned(p) && WellFormed(p, events) && Benign(events) && |reports| == |events| && i < |reports|
    requires w.poll == Before(p, events, i) && Foreseen(w, reports, i, p.list, events)
    requires Answered(reports, events, i) && (Delivers(events, i) ==> FirstOrLast(events, i))
    ensures w.poll.list != [] && |reports| <= |w.poll.fds|
    ensures Outcome(w, reports[i], i) == events[i]
    ensures Taken(w, reports[i], i) == OwnOne(p.list, events, i)
    ensures var w' := Turn(w, reports[i], i, |reports|);
      w'.poll == Before(p, events, i + 1) && Foreseen(w', reports, i + 1, p.list, events)
  {
    assert AnsweredAt(reports[i], events, i);
    if Delivers(events, i) {
      SlotIsOwnIff(p, events, i);
    }
    BeforeNext(p, events, i);
  }

  function OwnOne(list: seq<int>, events: seq<Event>, i: nat): (one: seq<(int, Reading)>)
    requires i < |events| == |list|
  {
    if Delivers(events, i) then [(Own(list, events, i), events[i].data.value)] else []
  }

  /** A slot read from another connection: what is passed on is no longer what was
      said, whether that read succeeds or not. */
  lemma {:induction false} OtherTurn(w: World, reports: seq<Report>, i: nat, p: Poll, events: seq<Event>)
    requires Aligned(p) && WellFormed(p, events) && Benign(events) && |reports| == |events| && i < |reports|
    requires w.poll == Before(p, events, i) && Foreseen(w, reports, i, p.list, events)
    requires Answered(reports, events, i) && Delivers(events, i) && !FirstOrLast(events, i)
    ensures Fit(w, reports, i) && SentFrom(w, reports, i) != OwnFrom(p.list, events, i)
  {
    var w' := Turn(w, reports[i], i, |reports|);
    SlotIsOwnIff(p, events, i);
    NoMoreThanSpoken(w', reports, i + 1, p.list, events);
    HeadsDiffer(Taken(w, reports[i], i), SentFrom(w', reports, i + 1),
                (Own(p.list, events, i), events[i].data.value), OwnFrom(p.list, events, i + 1));
  }

  lemma HeadsDiffer(one: seq<(int, Reading)>, s: seq<(int, Reading)>, x: (int, Reading), t: seq<(int, Reading)>)
    requires |one| <= 1 && (|one| == 1 ==> one[0].0 != x.0) && |s| <= |t|
    ensures one + s != [x] + t
  {
    assert |one| == 1 ==> (one + s)[0] != ([x] + t)[0];
  }

  /** From slot i on every delivering slot is the first to be read or the last. */
  ghost predicate OwnFromOn(events: seq<Event>, i: nat) {
    forall j :: i <= j < |events| && Delivers(events, j) ==> FirstOrLast(events, j)
  }

  /** From slot i on: what is passed on is what is said exactly when every slot is
      read from its own connection, and then the slots become what was expected. */
  ghost predicate ReadIff(w: World, reports: seq<Report>, i: nat, list: seq<int>, events: seq<Event>)
    requires Fit(w, reports, i) && |reports| == |list| == |events|
  {
    && (SentFrom(w, reports, i) == OwnFrom(list, events, i) <==> OwnFromOn(events, i))
    && (OwnFromOn(events, i) ==> OutcomesFrom(w, reports, i) == events[i..])
  }

  lemma {:induction false} ReadFromOnIff(w: World, reports: seq<Report>, i: nat, p: Poll, events: seq<Event>)
    requires Aligned(p) && WellFormed(p, events) && Benign(events) && |reports| == |events| && i <= |reports|
    requires w.poll == Before(p, events, i) && Foreseen(w, reports, i, p.list, events)
    requires Answered(reports, events, i)
    ensures Fit(w, reports, i) && ReadIff(w, reports, i, p.list, events)
    decreases |reports| - i
  {
    if i < |reports| {
      if Delivers(events, i) && !FirstOrLast(events, i) {
        OtherTurn(w, reports, i, p, events);
      } else {
        OwnTurn(w, reports, i, p, events);
        ReadFromOnIff(Turn(w, reports[i], i, |reports|), reports, i + 1, p, events);
        OwnStep(w, reports, i, p.list, events);
      }
    }
  }

  lemma {:induction false} OwnStep(w: World, reports: seq<Report>, i: nat, list: seq<int>, events: seq<Event>)
    requires Fit(w, reports, i) && |reports| == |list| == |events| && i < |reports|
    requires Outcome(w, reports[i], i) == events[i] && Taken(w, reports[i], i) == OwnOne(list, events, i)
    requires Delivers(events, i) ==> FirstOrLast(events, i)
    requires ReadIff(Turn(w, reports[i], i, |reports|), reports, i + 1, list, events)
    ensures ReadIff(w, reports, i, list, events)
  {
    var w' := Turn(w, reports[i], i, |reports|);
    SameTail(OwnOne(list, events, i), SentFrom(w', reports, i + 1), OwnFrom(list, events, i + 1));
    assert events[i..] == [events[i]] + events[i + 1..];
  }

  lemma SameTail<T>(one: seq<T>, s: seq<T>, t: seq<T>)
    ensures one + s == one + t <==> s == t
  {
    assert s == (one + s)[|one|..] && t == (one + t)[|one|..];
  }

  /** In a round of an aligned array and list that would keep them so, what is passed
      on is what the polled connections have to say, no more and no less, exactly when
      no slot after a closed one delivers, save the last; and then the slots become
      what was expected. */
  lemma ReadIsSpokenIff(w: World, reports: seq<Report>)
    requires Aligned(w.poll) && Polled(w, reports) && Benign(Expected(w, reports))
    ensures Sent(w, reports) == Spoken(w, reports) <==> OnlyLastAfterClose(Expected(w, reports))
    ensures OnlyLastAfterClose(Expected(w, reports)) ==> Outcomes(w, reports) == Expected(w, reports)
  {
    var events := Expected(w, reports);
    assert w.poll.fds[..|reports|] == w.poll.list;
    PolledIsAnswered(w, reports);
    ReadFromOnIff(w, reports, 0, w.poll, events);
    assert events[0..] == events;
  }

  lemma PolledIsAnswered(w: World, reports: seq<Report>)
    requires Polled(w, reports)
    ensures Answered(reports, Expected(w, reports), 0)
  {
    var events := Expected(w, reports);
    forall j | 0 <= j < |events| ensures AnsweredAt(reports[j], events, j) {
      assert HasReading(w.unread, w.poll.fds[j], reports[j], j);
      assert events[j] == ExpectedAt(w.unread, w.poll.fds[j], reports[j], j);
    }
  }

  // ----- whole runs -----

  ghost predicate Step(w: World, reports: seq<Report>, w': World) {
    && WellReported(w, reports)
    && var v := After(w, reports, 0);
       Returns(v.poll, |reports|) && w' == World(Compressed(v.poll, |reports|), v.unread)
  }

  /** Array and list go through the round of what becomes of the slots. */
  lemma StepIsRound(w: World, reports: seq<Report>, w': World)
    requires Step(w, reports, w')
    ensures Round(w.poll, Outcomes(w, reports), w'.poll)
  {
    var events := Outcomes(w, reports);
    assert events[0..] == events;
    HandledAs(w, reports, 0, events);
  }

  /** Rounds that all came to an end. */
  ghost predicate Rounds(rounds: seq<seq<Report>>, worlds: seq<World>) {
    && |worlds| == |rounds| + 1
    && forall k :: 0 <= k < |rounds| ==> Step(worlds[k], rounds[k], worlds[k + 1])
  }

  /** A run from the state init_server leaves; nobody has said anything. */
  ghost predicate WorldRun(serverFd: nat, rounds: seq<seq<Report>>, worlds: seq<World>) {
    Rounds(rounds, worlds) && worlds[0] == World(Start(serverFd), map[])
  }

  ghost function OutcomesOf(rounds: seq<seq<Report>>, worlds: seq<World>): seq<seq<Event>>
    requires Rounds(rounds, worlds)
  {
    seq(|rounds|, k requires 0 <= k < |rounds| && Step(worlds[k], rounds[k], worlds[k + 1]) =>
                    Outcomes(worlds[k], rounds[k]))
  }

  function Polls(worlds: seq<World>): (polls: seq<Poll>)
    ensures |polls| == |worlds| && forall k :: 0 <= k < |worlds| ==> polls[k] == worlds[k].poll
  {
    seq(|worlds|, k requires 0 <= k < |worlds| => worlds[k].poll)
  }

  /** Behind every run array and list go through a run of poll rounds, so all that
      holds of those holds here. */
  lemma RunOfPolls(serverFd: nat, rounds: seq<seq<Report>>, worlds: seq<World>)
    requires WorldRun(serverFd, rounds, worlds)
    ensures Run(serverFd, OutcomesOf(rounds, worlds), Polls(worlds))
  {
    var events, polls := OutcomesOf(rounds, worlds), Polls(worlds);
    forall k | 0 <= k < |rounds| ensures Round(polls[k], events[k], polls[k + 1]) {
      assert Step(worlds[k], rounds[k], worlds[k + 1]);
      StepIsRound(worlds[k], rounds[k], worlds[k + 1]);
    }
  }

  /** What is passed on in the rounds from k on. */
  ghost function AllSent(rounds: seq<seq<Report>>, worlds: seq<World>, k: nat): seq<(int, Reading)>
    requires Rounds(rounds, worlds) && k <= |rounds|
    decreases |rounds| - k
  {
    if k == |rounds| then []
    else
      assert Step(worlds[k], rounds[k], worlds[k + 1]);
      Sent(worlds[k], rounds[k]) + AllSent(rounds, worlds, k + 1)
  }

  /** What the polled connections have to say in the rounds from k on. */
  ghost function AllSpoken(rounds: seq<seq<Report>>, worlds: seq<World>, k: nat): seq<(int, Reading)>
    requires Rounds(rounds, worlds) && k <= |rounds|
    decreases |rounds| - k
  {
    if k == |rounds| then []
    else
      assert Step(worlds[k], rounds[k], worlds[k + 1]);
      Spoken(worlds[k], rounds[k]) + AllSpoken(rounds, worlds, k + 1)
  }

  /** Every round is one that poll() can report and that, read slot by slot from the
      watched connections, would keep array and list aligned. */
  ghost predicate AllBenign(rounds: seq<seq<Report>>, worlds: seq<World>)
    requires Rounds(rounds, worlds)
  {
    forall k :: 0 <= k < |rounds| ==> BenignAt(worlds[k], rounds[k])
  }

  ghost predicate BenignAt(w: World, reports: seq<Report>) {
    Polled(w, reports) && Benign(Expected(w, reports))
  }

  /** And no slot after a closed one delivers, save the last. */
  ghost predicate GoodAt(w: World, reports: seq<Report>) {
    BenignAt(w, reports) && OnlyLastAfterClose(Expected(w, reports))
  }

  lemma StepAt(rounds: seq<seq<Report>>, worlds: seq<World>, k: nat)
    requires Rounds(rounds, worlds) && k < |rounds|
    ensures Step(worlds[k], rounds[k], worlds[k + 1])
    ensures AllSent(rounds, worlds, k) == Sent(worlds[k], rounds[k]) + AllSent(rounds, worlds, k + 1)
    ensures AllSpoken(rounds, worlds, k) == Spoken(worlds[k], rounds[k]) + AllSpoken(rounds, worlds, k + 1)
  {
  }

  ghost predicate AllGood(rounds: seq<seq<Report>>, worlds: seq<World>)
    requires Rounds(rounds, worlds)
  {
    forall k :: 0 <= k < |rounds| ==> GoodAt(worlds[k], rounds[k])
  }

  /** Good rounds keep array and list aligned. */
  lemma {:induction false} AlignedWhileGood(serverFd: nat, rounds: seq<seq<Report>>, worlds: seq<World>, k: nat)
    requires WorldRun(serverFd, rounds, worlds) && k <= |rounds|
    requires forall m :: 0 <= m < k ==> GoodAt(worlds[m], rounds[m])
    ensures Aligned(worlds[k].poll)
  {
    if k > 0 {
      AlignedWhileGood(serverFd, rounds, worlds, k - 1);
      var w, reports := worlds[k - 1], rounds[k - 1];
      StepAt(rounds, worlds, k - 1);
      assert GoodAt(w, reports);
      ReadIsSpokenIff(w, reports);
      StepIsRound(w, reports, worlds[k]);
      AlignedIffBenign(w.poll, Outcomes(w, reports));
    }
  }

  /** Over a run: all that is passed on is what the polled connections have to say,
      round by round and slot by slot, exactly when every round is good. */
  lemma RunReadIsSpokenIff(serverFd: nat, rounds: seq<seq<Report>>, worlds: seq<World>)
    requires WorldRun(serverFd, rounds, worlds) && AllBenign(rounds, worlds)
    ensures AllSent(rounds, worlds, 0) == AllSpoken(rounds, worlds, 0) <==> AllGood(rounds, worlds)
  {
    RoundByRound(rounds, worlds, 0);
    GoodUntil(serverFd, rounds, worlds, |rounds|);
  }

  /** After a good round a connection is left in the list unless poll() reported that
      it hung up, and a client that connected joins it if it says anything. */
  lemma WhoIsLeft(w: World, reports: seq<Report>, w': World)
    requires Aligned(w.poll) && GoodAt(w, reports) && Step(w, reports, w')
    ensures forall i :: 0 <= i < |reports| ==> (w.poll.list[i] in w'.poll.list <==> !reports[i].HungUp?)
    ensures reports[0].Ready? ==> (reports[0].newFd in w'.poll.list <==> reports[0].says != [])
  {
    var events := Expected(w, reports);
    ReadIsSpokenIff(w, reports);
    StepIsRound(w, reports, w');
    WhoStays(w.poll, events);
    forall i | 0 <= i < |reports| ensures reports[i].Ready? && i > 0 ==> events[i].data.Some? {
      assert HasReading(w.unread, w.poll.fds[i], reports[i], i);
    }
  }

  ghost predicate SameAt(w: World, reports: seq<Report>) {
    WellReported(w, reports) && Sent(w, reports) == Spoken(w, reports)
  }

  ghost predicate SameAfter(rounds: seq<seq<Report>>, worlds: seq<World>, k: nat)
    requires |worlds| == |rounds| + 1
  {
    forall m :: k <= m < |rounds| ==> SameAt(worlds[m], rounds[m])
  }

  /** From round k on no more is passed on than said, and the same exactly if so in
      every round. */
  ghost predicate ByRound(rounds: seq<seq<Report>>, worlds: seq<World>, k: nat)
    requires Rounds(rounds, worlds) && k <= |rounds|
  {
    && |AllSent(rounds, worlds, k)| <= |AllSpoken(rounds, worlds, k)|
    && (AllSent(rounds, worlds, k) == AllSpoken(rounds, worlds, k) <==> SameAfter(rounds, worlds, k))
  }

  lemma {:induction false} RoundByRound(rounds: seq<seq<Report>>, worlds: seq<World>, k: nat)
    requires Rounds(rounds, worlds) && k <= |rounds| && AllBenign(rounds, worlds)
    ensures ByRound(rounds, worlds, k)
    decreases |rounds| - k
  {
    if k < |rounds| {
      RoundByRound(rounds, worlds, k + 1);
      OneRoundMore(rounds, worlds, k);
    }
  }

  lemma {:induction false} OneRoundMore(rounds: seq<seq<Report>>, worlds: seq<World>, k: nat)
    requires Rounds(rounds, worlds) && k < |rounds| && AllBenign(rounds, worlds)
    requires ByRound(rounds, worlds, k + 1)
    ensures ByRound(rounds, worlds, k)
  {
    StepAt(rounds, worlds, k);
    assert BenignAt(worlds[k], rounds[k]);
    PolledIsAnswered(worlds[k], rounds[k]);
    NoMoreThanSpoken(worlds[k], rounds[k], 0, worlds[k].poll.fds[..|rounds[k]|], Expected(worlds[k], rounds[k]));
    SameJoin(Sent(worlds[k], rounds[k]), AllSent(rounds, worlds, k + 1),
             Spoken(worlds[k], rounds[k]), AllSpoken(rounds, worlds, k + 1));
  }

  lemma SameJoin<T>(s: seq<T>, s': seq<T>, t: seq<T>, t': seq<T>)
    requires |s| <= |t| && |s'| <= |t'|
    ensures s + s' == t + t' <==> s == t && s' == t'
  {
    if s + s' == t + t' {
      assert |s + s'| == |t + t'|;
      assert s == (s + s')[..|s|] == (t + t')[..|t|] == t;
      assert s' == (s + s')[|s|..] == (t + t')[|t|..] == t';
    }
  }

  lemma {:induction false} GoodUntil(serverFd: nat, rounds: seq<seq<Report>>, worlds: seq<World>, k: nat)
    requires WorldRun(serverFd, rounds, worlds) && AllBenign(rounds, worlds) && k <= |rounds|
    ensures (forall m :: 0 <= m < k ==> SameAt(worlds[m], rounds[m]))
       <==> (forall m :: 0 <= m < k ==> GoodAt(worlds[m], rounds[m]))
  {
    if k > 0 {
      GoodUntil(serverFd, rounds, worlds, k - 1);
      if forall m :: 0 <= m < k - 1 ==> GoodAt(worlds[m], rounds[m]) {
        AlignedWhileGood(serverFd, rounds, worlds, k - 1);
        assert BenignAt(worlds[k - 1], rounds[k - 1]);
        ReadIsSpokenIff(worlds[k - 1], rounds[k - 1]);
      }
    }
  }

  // ----- the life of one client -----

  /** The round brings a new client on the descriptor. */
  predicate NewOn(reports: seq<Report>, fd: int) {
    |reports| > 0 && reports[0].Ready? && reports[0].newFd == fd
  }

  lemma {:induction false} LaterReads(rounds: seq<seq<Report>>, worlds: seq<World>, k: nat, fd: int)
    requires Rounds(rounds, worlds) && k <= |rounds|
    requires forall m :: k <= m < |rounds| ==> !NewOn(rounds[m], fd)
    ensures OfSource(AllSent(rounds, worlds, k), fd) + Left(worlds[|rounds|].unread, fd) == Left(worlds[k].unread, fd)
    decreases |rounds| - k
  {
    if k < |rounds| {
      LaterReads(rounds, worlds, k + 1, fd);
      StepAt(rounds, worlds, k);
      RoundReadsInOrder(worlds[k], rounds[k], fd);
      OneThenRest(Sent(worlds[k], rounds[k]), AllSent(rounds, worlds, k + 1), Left(worlds[|rounds|].unread, fd),
                  Left(worlds[k + 1].unread, fd), fd);
    }
  }

  /** In every run, aligned or not, from the round in which a client connects: the
      readings passed on from its connection, followed by those left unread, are what
      it says, in its order. So it loses readings exactly if some are left unread. */
  lemma ClientLife(rounds: seq<seq<Report>>, worlds: seq<World>, k: nat)
    requires Rounds(rounds, worlds) && k < |rounds| && rounds[k] != [] && rounds[k][0].Ready?
    requires forall m :: k < m < |rounds| ==> !NewOn(rounds[m], rounds[k][0].newFd)
    ensures var fd := rounds[k][0].newFd;
      var passed, left := OfSource(AllSent(rounds, worlds, k), fd), Left(worlds[|rounds|].unread, fd);
      && passed + left == rounds[k][0].says
      && (passed == rounds[k][0].says <==> left == [])
  {
    var fd := rounds[k][0].newFd;
    LaterReads(rounds, worlds, k + 1, fd);
    StepAt(rounds, worlds, k);
    RoundReadsInOrder(worlds[k], rounds[k], fd);
    OneThenRest(Sent(worlds[k], rounds[k]), AllSent(rounds, worlds, k + 1), Left(worlds[|rounds|].unread, fd),
                Left(worlds[k + 1].unread, fd), fd);
    var passed, left := OfSource(AllSent(rounds, worlds, k), fd), Left(worlds[|rounds|].unread, fd);
    assert |passed + left| == |passed| + |left|;
  }
}
