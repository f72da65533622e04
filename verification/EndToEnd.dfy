/** The gateway from end to end: what the two consumer threads have made of the
    insertion history when they have been told to terminate. */
module EndToEnd {
  import opened Wrappers
  import opened Readings
  import opened Protocol
  import opened Shutdown
  import opened Windows
  import opened Storage
  import Clients
  import Polling

  /** The two readers of the gateway. */
  const DATAMGR: nat := 0
  const STRGMGR: nat := 1

  /** Messages i to the end that carry a reading. */
  function ReadingsFrom(ms: seq<Message>, i: nat): seq<Reading>
    requires i <= |ms|
    decreases |ms| - i
  {
    if i == |ms| then []
    else if ms[i].Got? then [ms[i].reading] + ReadingsFrom(ms, i + 1)
    else ReadingsFrom(ms, i + 1)
  }

  lemma {:induction false} ReadingsSplit(ms: seq<Message>, i: nat)
    requires i <= |ms|
    ensures ReadingsIn(ms) == ReadingsIn(ms[..i]) + ReadingsFrom(ms, i)
    decreases |ms| - i
  {
    if i == |ms| {
      assert ms[..i] == ms;
    } else {
      ReadingsSplit(ms, i + 1);
      assert ms[..i + 1] == ms[..i] + [ms[i]];
      ReadingsAppend(ms[..i], ms[i]);
      if ms[i].Got? {
        Assoc(ReadingsIn(ms[..i]), [ms[i].reading], ReadingsFrom(ms, i + 1));
      }
    }
  }

  /** s can be had from t by leaving elements out. */
  predicate Subsequence<T(==)>(s: seq<T>, t: seq<T>)
    decreases |t|
  {
    if |s| == 0 then true
    else if |t| == 0 then false
    else (s[0] == t[0] && Subsequence(s[1..], t[1..])) || Subsequence(s, t[1..])
  }

  lemma Extend<T>(x: T, s: seq<T>, t: seq<T>)
    requires Subsequence(s, t)
    ensures Subsequence([x] + s, [x] + t) && Subsequence(s, [x] + t)
  {
    assert ([x] + s)[1..] == s && ([x] + t)[1..] == t;
  }

  /** Stored and lost readings together are the readings taken out of the buffer. */
  lemma {:induction false} StoredPlusLost(ms: seq<Message>, inserted: seq<bool>, i: nat)
    requires i <= |ms| == |inserted|
    ensures Subsequence(Stored(ms, inserted, i, |ms|), ReadingsFrom(ms, i))
    ensures |Stored(ms, inserted, i, |ms|)| + |Lost(ms, inserted, i, |ms|)| == |ReadingsFrom(ms, i)|
    decreases |ms| - i
  {
    if i < |ms| {
      StoredPlusLost(ms, inserted, i + 1);
      Unroll(ms, inserted, i, |ms|);
      if ms[i].Got? {
        Extend(ms[i].reading, Stored(ms, inserted, i + 1, |ms|), ReadingsFrom(ms, i + 1));
      }
      assert [] + Stored(ms, inserted, i + 1, |ms|) == Stored(ms, inserted, i + 1, |ms|);
    }
  }

  /** A reader that was told to terminate was told so once, at the end, and has
      heard the whole history. */
  lemma Terminated(readers: nat, actions: seq<Action>, states: seq<State>, k: nat, r: nat)
    requires readers > 0 && Run(readers, actions, states) && k < |states| && r < readers
    requires r < |states[k].readers| && Terminate in states[k].readers[r].received
    ensures var ms := states[k].readers[r].received;
      && ReadingsIn(ms) == states[k].hist
      && (forall i :: 0 <= i < |ms| ==> (ms[i].Terminate? <==> i == |ms| - 1))
  {
    RunReader(readers, actions, states, k, r);
    var ms := states[k].readers[r].received;
    forall i | 0 <= i < |ms| - 1 ensures !ms[i].Terminate? {
      assert ms[..|ms| - 1][i] == ms[i];
    }
  }

  /** Whatever the interleaving, when the data thread has terminated every mapped
      sensor (the first with its id) holds the last values of its part of the whole
      insertion history, padded with zeros, and their average. */
  lemma DataManagerEndsRight(actions: seq<Action>, states: seq<State>, k: nat, readers: nat, es: seq<Entry>, i: nat)
    requires readers > DATAMGR && Run(readers, actions, states) && k < |states|
    requires DATAMGR < |states[k].readers| && Terminate in states[k].readers[DATAMGR].received
    requires Ready(es) && i < |es| && es[i].values == Zeros(|es[i].values|)
    ensures var e := FeedAll(es, ReadingsIn(states[k].readers[DATAMGR].received))[i];
      var vs := ValuesOf(states[k].hist, es[i].id);
      && (i == Find(es, es[i].id) ==>
            && e.values == Window(vs, |es[i].values|)
            && (vs != [] ==> e.avg == Average(e.values) && e.ts == TimesOf(states[k].hist, es[i].id)[|vs| - 1]))
      && (i != Find(es, es[i].id) ==> e == es[i])
  {
    Terminated(readers, actions, states, k, DATAMGR);
    WindowAfter(es, states[k].hist, i);
  }

  /** Whatever the interleaving and whatever the database refuses: a storage thread
      that has been told to terminate is at the barrier exactly when it could make
      more connections than insertions were refused. Then the table holds, in order
      and with nothing older, the whole insertion history but for the refused. */
  lemma StorageEndsRight(actions: seq<Action>, states: seq<State>, k: nat, readers: nat,
                         inserted: seq<bool>, opens: seq<Opening>, rows: seq<Reading>)
    requires readers > STRGMGR && Run(readers, actions, states) && k < |states|
    requires STRGMGR < |states[k].readers| && Terminate in states[k].readers[STRGMGR].received
    requires |inserted| == |states[k].readers[STRGMGR].received|
    ensures var ms := states[k].readers[STRGMGR].received;
      var t := Attempts(ms, inserted, opens, 1, true, 0, rows);
      && (t.ending == AtBarrier <==> |Lost(ms, inserted, 0, |ms|)| < Connections(opens, 1, true))
      && (t.ending == AtBarrier ==>
        && t.next == |ms|
        && t.rows == Stored(ms, inserted, 0, |ms|)
        && Subsequence(t.rows, states[k].hist)
        && |t.rows| + |Lost(ms, inserted, 0, |ms|)| == |states[k].hist|
        && |Lost(ms, inserted, 0, |ms|)| < |opens|)
  {
    Terminated(readers, actions, states, k, STRGMGR);
    var ms := states[k].readers[STRGMGR].received;
    BoundedLoss(ms, inserted, opens, 1, true, 0, rows);
    StoredPlusLost(ms, inserted, 0);
    ReadingsSplit(ms, 0);
    assert states[k].hist == ReadingsFrom(ms, 0) by {
      assert ms[..0] == [];
    }
    var t := Attempts(ms, inserted, opens, 1, true, 0, rows);
    assert t.ending == AtBarrier ==> t.next == |ms|;
    Progress(ms, inserted, opens, 1, true, 0, rows);
  }

  /** The readings without the connections they are from, as they enter the buffer. */
  function DataOf(sent: seq<(int, Reading)>): (data: seq<Reading>)
    ensures |data| == |sent| && forall i :: 0 <= i < |sent| ==> data[i] == sent[i].1
  {
    seq(|sent|, i requires 0 <= i < |sent| => sent[i].1)
  }

  /** A run of the gateway whose connection manager goes through the given poll
      rounds: it writes the readings that it takes from the connections. */
  ghost predicate GatewayRun(serverFd: nat, rounds: seq<seq<Clients.Report>>, worlds: seq<Clients.World>,
                             actions: seq<Action>, states: seq<State>) {
    && Polling.WorldRun(serverFd, rounds, worlds)
    && Run(2, actions, states)
    && Script(states) == DataOf(Polling.AllSent(rounds, worlds, 0))
  }

  /** What has been inserted is always the beginning of what the manager took from
      the connections, and all of it once the flag is up. If every round is good, that
      is what the polled connections had to say. */
  lemma HistoryIsTaken(serverFd: nat, rounds: seq<seq<Clients.Report>>, worlds: seq<Clients.World>,
                       actions: seq<Action>, states: seq<State>, k: nat)
    requires GatewayRun(serverFd, rounds, worlds, actions, states) && k < |states|
    ensures states[k].hist <= DataOf(Polling.AllSent(rounds, worlds, 0))
    ensures states[k].flag ==> states[k].hist == DataOf(Polling.AllSent(rounds, worlds, 0))
    ensures states[k].flag && Polling.AllGood(rounds, worlds) ==>
              states[k].hist == DataOf(Polling.AllSpoken(rounds, worlds, 0))
  {
    HistoryIsScript(2, actions, states, k);
    if Polling.AllGood(rounds, worlds) {
      Polling.RunReadIsSpokenIff(serverFd, rounds, worlds);
    }
  }

  /** Both consumers have done right by the readings: each of the two has had all of
      them in order, every mapped sensor holds the window of its readings, and the
      storage thread is at the barrier and its table holds them in order but for fewer
      than there were connection tries. */
  ghost predicate ConsumedRight(s: State, es: seq<Entry>, lines: seq<(nat, nat)>, n: nat, inserted: seq<bool>,
                                opens: seq<Opening>, rows: seq<Reading>, readings: seq<Reading>)
    requires n > 0 && |s.readers| == 2 && |inserted| == |s.readers[STRGMGR].received| && Ready(es)
  {
    var t := Attempts(s.readers[STRGMGR].received, inserted, opens, 1, true, 0, rows);
    && t.ending == AtBarrier
    && (forall r :: 0 <= r < 2 ==> Consumed(s, r) == readings)
    && MappedAfter(FeedAll(es, Consumed(s, DATAMGR)), lines, n, readings)
    && Subsequence(t.rows, readings)
    && |t.rows| + |Lost(s.readers[STRGMGR].received, inserted, 0, |inserted|)| == |readings|
    && |readings| - |opens| < |t.rows|
  }

  /** The whole gateway. When main gets past the barrier, whatever the clients did over
      all poll rounds and in whatever order the threads ran, as long as the database
      refused fewer insertions than connections could be made: the buffer is empty, and
      both consumers have done right by all readings the manager took from the
      connections. If every round is good these are exactly the readings that the
      polled connections had to say. */
  lemma GatewayEndsRight(serverFd: nat, rounds: seq<seq<Clients.Report>>, worlds: seq<Clients.World>,
                         actions: seq<Action>, states: seq<State>, k: nat,
                         es: seq<Entry>, lines: seq<(nat, nat)>, n: nat,
                         inserted: seq<bool>, opens: seq<Opening>, rows: seq<Reading>)
    requires GatewayRun(serverFd, rounds, worlds, actions, states)
    requires k < |states| && AllArrived(states[k]) && |states[k].readers| == 2
    requires n > 0 && Mapped(es, lines, n)
    requires |inserted| == |states[k].readers[STRGMGR].received|
    requires var ms := states[k].readers[STRGMGR].received;
      |Lost(ms, inserted, 0, |ms|)| < Connections(opens, 1, true)
    ensures states[k].cells == [] && Ready(es)
    ensures ConsumedRight(states[k], es, lines, n, inserted, opens, rows,
                          DataOf(Polling.AllSent(rounds, worlds, 0)))
    ensures Polling.AllGood(rounds, worlds) ==>
              ConsumedRight(states[k], es, lines, n, inserted, opens, rows,
                            DataOf(Polling.AllSpoken(rounds, worlds, 0)))
  {
    EmptyAtBarrier(2, actions, states, k);
    RunInv(2, actions, states, k);
    HistoryIsTaken(serverFd, rounds, worlds, actions, states, k);
    Arrived(actions, states, k, STRGMGR);
    WindowsOfMap(es, lines, n, states[k].hist);
    StorageEndsRight(actions, states, k, 2, inserted, opens, rows);
  }

  lemma Arrived(actions: seq<Action>, states: seq<State>, k: nat, r: nat)
    requires Run(2, actions, states) && k < |states| && AllArrived(states[k]) && r < 2
    ensures |states[k].readers| == 2 && Terminate in states[k].readers[r].received
  {
    RunReader(2, actions, states, k, r);
  }
}
