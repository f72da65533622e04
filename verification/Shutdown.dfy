/** What happens once the connection manager has raised the flag: nothing more is
    inserted, the readers drain the buffer, everyone meets at the barrier and main
    frees an empty buffer. */
module Shutdown {
  import opened Wrappers
  import opened Readings
  import opened BufferSpec
  import opened Protocol

  /** Once the flag is up nothing more is inserted. */
  lemma {:induction false} HistoryIsFinal(readers: nat, actions: seq<Action>, states: seq<State>, i: nat, j: nat)
    requires readers > 0 && Run(readers, actions, states) && i <= j < |states| && states[i].flag
    ensures states[j].flag && states[j].hist == states[i].hist
    decreases j
  {
    if i < j {
      HistoryIsFinal(readers, actions, states, i, j - 1);
      RunEffect(readers, actions, states, j - 1, 0);
    }
  }

  /** A reader that was told to terminate has consumed the whole history, and that
      history stays the final one. */
  lemma ShutdownIsSafe(readers: nat, actions: seq<Action>, states: seq<State>, i: nat, j: nat, r: nat)
    requires readers > 0 && Run(readers, actions, states) && i <= j < |states| && r < readers
    requires r < |states[i].readers| && Terminate in states[i].readers[r].received
    ensures states[i].flag && r < |states[j].readers|
    ensures Consumed(states[i], r) == Consumed(states[j], r) == states[j].hist
  {
    RunReader(readers, actions, states, i, r);
    RunReader(readers, actions, states, j, r);
    HistoryIsFinal(readers, actions, states, i, j);
    StaysFinished(readers, actions, states, i, j, r);
  }

  lemma {:induction false} StaysFinished(readers: nat, actions: seq<Action>, states: seq<State>, i: nat, j: nat, r: nat)
    requires readers > 0 && Run(readers, actions, states) && i <= j < |states| && r < readers
    requires r < |states[i].readers| && !states[i].readers[r].phase.Running?
    ensures r < |states[j].readers| && !states[j].readers[r].phase.Running?
    ensures states[j].readers[r].received == states[i].readers[r].received
    decreases j
  {
    if i < j {
      StaysFinished(readers, actions, states, i, j - 1, r);
      RunEffect(readers, actions, states, j - 1, r);
    }
  }

  /** When main gets past the barrier the buffer has no node left to free. */
  lemma EmptyAtBarrier(readers: nat, actions: seq<Action>, states: seq<State>, k: nat)
    requires readers > 0 && Run(readers, actions, states) && k < |states| && AllArrived(states[k])
    ensures states[k].cells == []
    ensures forall r :: 0 <= r < |states[k].readers| ==> Consumed(states[k], r) == states[k].hist
  {
    var s := states[k];
    RunInv(readers, actions, states, k);
    forall r | 0 <= r < |s.readers| ensures Consumed(s, r) == s.hist && Cursors(s)[r] == |s.hist| {
      assert ReaderOk(s, r);
    }
    assert Min(Cursors(s)) in Cursors(s);
  }

  // ----- the drain after the flag -----

  /** Calls reader r has still to make: one for each unread reading, and one to be
      told to terminate. */
  ghost function Pending(s: State, r: nat): int
    requires r < |s.readers|
  {
    |s.hist| - |Consumed(s, r)| + if s.readers[r].phase.Running? then 1 else 0
  }

  ghost function TotalPending(s: State, n: nat): int
    requires n <= |s.readers|
  {
    if n == 0 then 0 else TotalPending(s, n - 1) + Pending(s, n - 1)
  }

  lemma {:induction false} PendingNonNegative(s: State, n: nat)
    requires Inv(s) && n <= |s.readers|
    ensures TotalPending(s, n) >= 0
  {
    if n > 0 {
      PendingNonNegative(s, n - 1);
      assert ReaderOk(s, n - 1);
    }
  }

  lemma {:induction false} PendingChange(s: State, s': State, id: nat, n: nat)
    requires n <= |s.readers| == |s'.readers| && id < |s.readers|
    requires forall r :: 0 <= r < |s.readers| && r != id ==> Pending(s', r) == Pending(s, r)
    ensures TotalPending(s', n) == TotalPending(s, n) + if id < n then Pending(s', id) - Pending(s, id) else 0
  {
    if n > 0 {
      PendingChange(s, s', id, n - 1);
    }
  }

  /** Once the flag is up no read is answered with "wait": a reader hears its next
      reading, and when it has none left the order to terminate. */
  lemma NoWaitAfterFlag(readers: nat, actions: seq<Action>, states: seq<State>, k: nat, id: nat)
    requires readers > 0 && Run(readers, actions, states) && k < |actions|
    requires states[k].flag && actions[k] == Read(id)
    ensures id < |states[k].readers| == |states[k + 1].readers|
    ensures var n := |Consumed(states[k], id)|;
      && n <= |states[k].hist|
      && states[k + 1].readers[id].received == states[k].readers[id].received
           + [if n < |states[k].hist| then Got(states[k].hist[n]) else Terminate]
  {
    RunInv(readers, actions, states, k);
    assert StepAt(actions, states, k);
    RunEffect(readers, actions, states, k, id);
  }

  lemma PendingAfter(s: State, a: Action, s': State)
    requires |s.readers| == |s'.readers| > 0 && s.flag && Enabled(s, a)
    requires forall r :: 0 <= r < |s.readers| ==> Effect(s, a, s', r) && ReaderOk(s, r)
    ensures TotalPending(s', |s.readers|) == TotalPending(s, |s.readers|) - if a.Read? then 1 else 0
  {
    var id := if a.Read? then a.id else 0;
    assert Effect(s, a, s', id) && ReaderOk(s, id);
    forall r | 0 <= r < |s.readers| && a != Read(r) ensures Pending(s', r) == Pending(s, r) {
      assert Effect(s, a, s', r);
    }
    PendingChange(s, s', id, |s.readers|);
  }

  lemma RunPending(readers: nat, actions: seq<Action>, states: seq<State>, k: nat)
    requires readers > 0 && Run(readers, actions, states) && k < |states|
    ensures |states[k].readers| == readers && TotalPending(states[k], readers) >= 0
  {
    RunInv(readers, actions, states, k);
    PendingNonNegative(states[k], readers);
  }

  lemma OnePending(readers: nat, actions: seq<Action>, states: seq<State>, k: nat)
    requires readers > 0 && Run(readers, actions, states) && k < |actions| && states[k].flag
    ensures |states[k].readers| == |states[k + 1].readers| == readers
    ensures TotalPending(states[k + 1], readers)
         == TotalPending(states[k], readers) - if actions[k].Read? then 1 else 0
  {
    RunEffect(readers, actions, states, k, 0);
    var s, a, s' := states[k], actions[k], states[k + 1];
    forall r | 0 <= r < |s.readers| ensures Effect(s, a, s', r) && ReaderOk(s, r) {
      RunEffect(readers, actions, states, k, r);
    }
    PendingAfter(s, a, s');
  }

  function Reads(actions: seq<Action>): nat {
    if |actions| == 0 then 0 else Reads(actions[..|actions| - 1]) + if actions[|actions| - 1].Read? then 1 else 0
  }

  /** Drain termination: from any state with the flag up, the reads still made in
      a run are exactly the pending calls used up, so never more than there are. */
  lemma {:induction false} DrainTerminates(readers: nat, actions: seq<Action>, states: seq<State>, i: nat, j: nat)
    requires readers > 0 && Run(readers, actions, states) && i <= j < |states| && states[i].flag
    ensures |states[i].readers| == |states[j].readers| == readers
    ensures Reads(actions[i..j]) == TotalPending(states[i], readers) - TotalPending(states[j], readers)
    ensures Reads(actions[i..j]) <= TotalPending(states[i], readers)
    decreases j
  {
    RunPending(readers, actions, states, i);
    RunPending(readers, actions, states, j);
    if i == j {
      assert actions[i..j] == [];
    } else {
      DrainTerminates(readers, actions, states, i, j - 1);
      HistoryIsFinal(readers, actions, states, i, j - 1);
      OnePending(readers, actions, states, j - 1);
      assert actions[i..j][..j - i - 1] == actions[i..j - 1];
    }
  }

  function Gots(data: seq<Reading>): (ms: seq<Message>)
    ensures |ms| == |data| && forall i :: 0 <= i < |data| ==> ms[i] == Got(data[i])
  {
    seq(|data|, i requires 0 <= i < |data| => Got(data[i]))
  }

  /** The messages a reader hears after the flag: the unread readings in order,
      up to where it has got, then the order to terminate. */
  lemma {:induction false} DrainHears(readers: nat, actions: seq<Action>, states: seq<State>, i: nat, j: nat, r: nat)
    requires readers > 0 && Run(readers, actions, states) && i <= j < |states| && states[i].flag
    requires r < readers && r < |states[i].readers| && states[i].readers[r].phase.Running?
    ensures r < |states[j].readers|
    ensures DrainedTo(states[i], states[j], r)
    decreases j
  {
    RunReader(readers, actions, states, i, r);
    if i < j {
      DrainHears(readers, actions, states, i, j - 1, r);
      HistoryIsFinal(readers, actions, states, i, j - 1);
      RunEffect(readers, actions, states, j - 1, r);
      HearsOneMore(states[i], states[j - 1], actions[j - 1], states[j], r);
    }
  }

  ghost predicate DrainedTo(s: State, t: State, r: nat)
    requires r < |s.readers| && r < |t.readers|
  {
    && |Consumed(s, r)| <= |Consumed(t, r)| <= |s.hist|
    && t.readers[r].received
         == HeardTo(s.readers[r].received, Gots(s.hist[|Consumed(s, r)|..|Consumed(t, r)|]),
                    t.readers[r].phase.Running?)
  }

  /** The messages of before, the readings since, and the order to terminate once
      the reader no longer runs. */
  function HeardTo(before: seq<Message>, gots: seq<Message>, running: bool): seq<Message> {
    if running then before + gots else before + gots + [Terminate]
  }

  lemma GotsNext(hist: seq<Reading>, i: nat, k: nat)
    requires i <= k < |hist|
    ensures Gots(hist[i..k + 1]) == Gots(hist[i..k]) + [Got(hist[k])]
  {
  }

  lemma HearsOneMore(s: State, t: State, a: Action, t': State, r: nat)
    requires r < |s.readers| && r < |t.readers| == |t'.readers|
    requires DrainedTo(s, t, r) && Effect(t, a, t', r) && t.flag && t.hist == s.hist
    ensures DrainedTo(s, t', r)
  {
    var i, k := |Consumed(s, r)|, |Consumed(t, r)|;
    if a == Read(r) && k < |t.hist| {
      GotsNext(t.hist, i, k);
      Assoc(s.readers[r].received, Gots(t.hist[i..k]), [Got(t.hist[k])]);
    }
  }

  /** A reader that terminates after the flag went up has made exactly one call for
      each reading it had left and one more. */
  lemma DrainIsExact(readers: nat, actions: seq<Action>, states: seq<State>, i: nat, j: nat, r: nat)
    requires readers > 0 && Run(readers, actions, states) && i <= j < |states| && states[i].flag
    requires r < readers && r < |states[i].readers| && states[i].readers[r].phase.Running?
    requires r < |states[j].readers| && !states[j].readers[r].phase.Running?
    ensures Sized(states[i].cells, readers)
    ensures states[j].readers[r].received
         == states[i].readers[r].received + Gots(Unread(states[i].cells, r)) + [Terminate]
  {
    RunInv(readers, actions, states, i);
    RunInv(readers, actions, states, j);
    assert ReaderOk(states[i], r) && ReaderOk(states[j], r);
    DrainHears(readers, actions, states, i, j, r);
    HistoryIsFinal(readers, actions, states, i, j);
    UnreadIsRest(states[i].cells, states[i].hist, Cursors(states[i]), r);
    var from, hist := |Consumed(states[i], r)|, states[i].hist;
    assert hist[from..|hist|] == hist[from..];
  }

  // ----- every run comes to an end -----

  function ReadersLeft(s: State, n: nat): nat
    requires n <= |s.readers|
  {
    if n == 0 then 0 else ReadersLeft(s, n - 1) + if s.readers[n - 1].phase.ReaderArrived? then 0 else 1
  }

  /** The steps a run can still make once the flag is up. */
  ghost function StepsLeft(s: State): int {
    TotalPending(s, |s.readers|) + ReadersLeft(s, |s.readers|)
      + (if s.writer.WriterArrived? then 0 else 1)
      + (match s.main case Started => 2 case MainArrived => 1 case Freed => 0)
      + (if s.aborted then 0 else 1)
  }

  lemma {:induction false} ReadersLeftChange(s: State, s': State, id: nat, n: nat)
    requires n <= |s.readers| == |s'.readers| && id < |s.readers|
    requires forall r :: 0 <= r < |s.readers| && r != id ==>
               (s'.readers[r].phase.ReaderArrived? <==> s.readers[r].phase.ReaderArrived?)
    ensures ReadersLeft(s', n) == ReadersLeft(s, n)
      + if id >= n || s'.readers[id].phase.ReaderArrived? == s.readers[id].phase.ReaderArrived? then 0
        else if s'.readers[id].phase.ReaderArrived? then -1 else 1
  {
    if n > 0 {
      ReadersLeftChange(s, s', id, n - 1);
    }
  }

  /** Every step uses up one of the steps left, whichever thread takes it. */
  lemma OneStepLess(readers: nat, actions: seq<Action>, states: seq<State>, k: nat)
    requires readers > 0 && Run(readers, actions, states) && k < |actions| && states[k].flag
    ensures StepsLeft(states[k + 1]) == StepsLeft(states[k]) - 1
  {
    OnePending(readers, actions, states, k);
    RunInv(readers, actions, states, k);
    var s, a, s' := states[k], actions[k], states[k + 1];
    assert StepAt(actions, states, k);
    ReadersLeftChange(s, s', if a.Read? || a.ReaderArrive? then a.id else 0, readers);
  }

  /** Once the flag is up a run has only so many steps left, in every interleaving. */
  lemma {:induction false} ShutdownIsBounded(readers: nat, actions: seq<Action>, states: seq<State>, i: nat, j: nat)
    requires readers > 0 && Run(readers, actions, states) && i <= j < |states| && states[i].flag
    ensures j - i == StepsLeft(states[i]) - StepsLeft(states[j]) <= StepsLeft(states[i])
    decreases j
  {
    RunPending(readers, actions, states, j);
    if i < j {
      ShutdownIsBounded(readers, actions, states, i, j - 1);
      HistoryIsFinal(readers, actions, states, i, j - 1);
      OneStepLess(readers, actions, states, j - 1);
    }
  }

  /** No deadlock: until the buffer is freed or the process aborted, some thread
      can take a step (other than aborting). */
  lemma NeverStuck(readers: nat, actions: seq<Action>, states: seq<State>, k: nat) returns (a: Action)
    requires readers > 0 && Run(readers, actions, states) && k < |states|
    requires !states[k].aborted && !states[k].main.Freed?
    ensures Enabled(states[k], a) && !a.Abort?
    ensures states[k].writer.Listening? ==>
              a == if states[k].pending == [] then Raise else Write(states[k].pending[0])
  {
    RunInv(readers, actions, states, k);
    var s := states[k];
    if s.writer.Listening? && s.pending != [] {
      a := Write(s.pending[0]);
    } else if s.writer.Listening? {
      a := Raise;
    } else if s.writer.Raised? {
      a := WriterArrive;
    } else if s.main.Started? {
      a := MainArrive;
    } else if r :| 0 <= r < |s.readers| && s.readers[r].phase.Running? {
      UnreadIsRest(s.cells, s.hist, Cursors(s), r);
      a := Read(r);
    } else if r :| 0 <= r < |s.readers| && s.readers[r].phase.Finished? {
      a := ReaderArrive(r);
    } else {
      a := MainFree;
    }
  }

  /** So every run in which nothing aborts can be carried on until main has freed
      the buffer: no schedule leads into a corner. */
  lemma {:induction false} CanComplete(readers: nat, actions: seq<Action>, states: seq<State>)
    returns (actions': seq<Action>, states': seq<State>)
    requires readers > 0 && Run(readers, actions, states) && !states[|actions|].aborted
    ensures Run(readers, actions', states') && actions <= actions' && states <= states'
    ensures states'[|actions'|].main.Freed? && !states'[|actions'|].aborted
    decreases if states[|actions|].flag then 0 else |states[|actions|].pending| + 1,
              if states[|actions|].flag then StepsLeft(states[|actions|]) else 0
  {
    var s := states[|actions|];
    RunPending(readers, actions, states, |actions|);
    if s.main.Freed? {
      return actions, states;
    }
    var a := NeverStuck(readers, actions, states, |actions|);
    var longer, reached := actions + [a], states + [Next(s, a)];
    ExtendRun(readers, actions, states, a);
    RunInv(readers, actions, states, |actions|);
    if s.flag {
      HistoryIsFinal(readers, longer, reached, |actions|, |longer|);
      OneStepLess(readers, longer, reached, |actions|);
    }
    actions', states' := CanComplete(readers, longer, reached);
  }

  lemma ExtendRun(readers: nat, actions: seq<Action>, states: seq<State>, a: Action)
    requires Run(readers, actions, states) && Enabled(states[|actions|], a)
    ensures Run(readers, actions + [a], states + [Next(states[|actions|], a)])
  {
    var longer, reached := actions + [a], states + [Next(states[|actions|], a)];
    forall k | 0 <= k < |longer| ensures StepAt(longer, reached, k) {
      assert k < |actions| ==> StepAt(actions, states, k);
    }
  }
}
