/** The gateway's threads around the shared buffer, as a state machine. Every
    buffer operation is one critical section under the mutex, so a run is any
    interleaving of the actions below.

    The connection manager writes what its clients deliver, raises the flag when it
    has nothing left to write and arrives at the barrier; each reader thread reads until it is told to terminate and
    arrives; main arrives, passes when everyone has, and frees the buffer. A failed
    assertion in any thread aborts the whole process. */
module Protocol {
  import opened Readings
  import opened BufferSpec
  import opened Wrappers

  datatype Code = GetData | MustWait | MustTerminate

  /** read_from_buffer: what the calling thread is told to do. */
  function ReadFromBuffer(cells: seq<Cell>, flag: bool, id: nat, readers: nat): (seq<Cell>, Code, Option<Reading>)
    requires Sized(cells, readers)
  {
    var (cells', result) := Remove(cells, id, readers);
    match result
    case NoData => (cells', if flag then MustTerminate else MustWait, None)
    case Failure => (cells', GetData, None)
    case Success(data) => (cells', GetData, Some(data))
  }

  /** A caller is told to use data that was never stored exactly when its id is
      not below the number of readers: the failure code is not looked at. */
  lemma GetDataWithoutData(cells: seq<Cell>, flag: bool, id: nat, readers: nat)
    requires Sized(cells, readers)
    ensures var (_, code, data) := ReadFromBuffer(cells, flag, id, readers);
      code == GetData && data == None <==> id >= readers
  {
  }

  // ----- the state machine -----

  /** What a reader thread receives from one call. */
  datatype Message = Got(reading: Reading) | Wait | Terminate

  /** No message from i to j is the order to terminate. */
  ghost predicate NoTerminate(ms: seq<Message>, i: nat, j: int) {
    forall k :: i <= k < j && k < |ms| ==> !ms[k].Terminate?
  }

  datatype WriterPhase = Listening | Raised | WriterArrived
  datatype ReaderPhase = Running | Finished | ReaderArrived
  datatype MainPhase = Started | MainArrived | Freed

  datatype Reader = Reader(phase: ReaderPhase, received: seq<Message>)

  /** pending: what the connection manager has still to write. hist is a ghost of
      the proof: every reading ever inserted. */
  datatype State = State(cells: seq<Cell>, flag: bool, writer: WriterPhase, pending: seq<Reading>,
                         readers: seq<Reader>, main: MainPhase, aborted: bool, hist: seq<Reading>)

  datatype Action =
    | Write(data: Reading) | Raise | WriterArrive
    | Read(id: nat) | ReaderArrive(id: nat)
    | MainArrive | MainFree
    | Abort

  /** The script is what the connection manager is going to write. */
  function Initial(readers: nat, script: seq<Reading>): State {
    State([], false, Listening, script, seq(readers, _ => Reader(Running, [])), Started, false, [])
  }

  predicate AllArrived(s: State) {
    && s.writer.WriterArrived? && s.main.MainArrived?
    && forall r :: 0 <= r < |s.readers| ==> s.readers[r].phase.ReaderArrived?
  }

  /** A reader thread runs until it is told to terminate. (That the cells have a
      flag for each reader is the fixed size of the flag array in the node.) */
  predicate Enabled(s: State, a: Action) {
    && !s.aborted
    && match a
       case Write(data) => s.writer.Listening? && s.pending != [] && data == s.pending[0]
       case Raise => s.writer.Listening? && s.pending == []
       case WriterArrive => s.writer.Raised?
       case Read(id) => id < |s.readers| && s.readers[id].phase.Running?
                        && Sized(s.cells, |s.readers|)
       case ReaderArrive(id) => id < |s.readers| && s.readers[id].phase.Finished?
       case MainArrive => s.main.Started?
       case MainFree => AllArrived(s)
       case Abort => true
  }

  function ToMessage(code: Code, data: Option<Reading>): Message {
    if code == GetData && data.Some? then Got(data.value) else if code == MustTerminate then Terminate else Wait
  }

  function Heard(reader: Reader, m: Message): Reader {
    Reader(if m.Terminate? then Finished else Running, reader.received + [m])
  }

  function Next(s: State, a: Action): State
    requires Enabled(s, a)
  {
    match a
    case Write(data) =>
      s.(cells := Insert(s.cells, data, |s.readers|), pending := s.pending[1..], hist := s.hist + [data])
    case Raise => s.(flag := true, writer := Raised)
    case WriterArrive => s.(writer := WriterArrived)
    case Read(id) =>
      var (cells, code, data) := ReadFromBuffer(s.cells, s.flag, id, |s.readers|);
      s.(cells := cells, readers := s.readers[id := Heard(s.readers[id], ToMessage(code, data))])
    case ReaderArrive(id) => s.(readers := s.readers[id := s.readers[id].(phase := ReaderArrived)])
    case MainArrive => s.(main := MainArrived)
    case MainFree => s.(cells := [], main := Freed)
    case Abort => s.(aborted := true)
  }

  /** A run of the gateway: any script, and any interleaving of enabled actions. */
  ghost predicate Run(readers: nat, actions: seq<Action>, states: seq<State>) {
    && |states| == |actions| + 1
    && states[0] == Initial(readers, Script(states))
    && forall k :: 0 <= k < |actions| ==> StepAt(actions, states, k)
  }

  /** All that the connection manager writes in the run, in its order. */
  function Script(states: seq<State>): seq<Reading>
    requires states != []
  {
    states[0].pending
  }

  ghost predicate StepAt(actions: seq<Action>, states: seq<State>, k: nat)
    requires k < |actions| && |states| == |actions| + 1
  {
    Enabled(states[k], actions[k]) && states[k + 1] == Next(states[k], actions[k])
  }

  // ----- the invariant -----

  /** The readings among the messages. */
  function ReadingsIn(ms: seq<Message>): (r: seq<Reading>)
    ensures |r| <= |ms|
  {
    if |ms| == 0 then []
    else
      var front := ReadingsIn(ms[..|ms| - 1]);
      if ms[|ms| - 1].Got? then front + [ms[|ms| - 1].reading] else front
  }

  function Consumed(s: State, r: nat): seq<Reading>
    requires r < |s.readers|
  {
    ReadingsIn(s.readers[r].received)
  }

  ghost function Cursors(s: State): (c: seq<nat>)
    ensures |c| == |s.readers|
    ensures forall r :: 0 <= r < |c| ==> c[r] == |Consumed(s, r)|
  {
    seq(|s.readers|, r requires 0 <= r < |s.readers| => |Consumed(s, r)|)
  }

  /** A reader has the first readings of the history, in order; once told to
      terminate it has them all, and hears nothing more. */
  ghost predicate ReaderOk(s: State, r: nat)
    requires r < |s.readers|
  {
    var ms := s.readers[r].received;
    && Consumed(s, r) <= s.hist
    && (s.readers[r].phase.Running? ==> Terminate !in ms)
    && (!s.readers[r].phase.Running? ==>
          s.flag && Consumed(s, r) == s.hist
          && ms != [] && ms[|ms| - 1].Terminate? && Terminate !in ms[..|ms| - 1])
  }

  ghost predicate Inv(s: State) {
    && s.readers != []
    && (s.flag <==> !s.writer.Listening?) && (s.flag ==> s.pending == [])
    && (forall r :: 0 <= r < |s.readers| ==> ReaderOk(s, r))
    && (!s.main.Freed? ==> Represents(s.cells, s.hist, Cursors(s)))
    && (s.main.Freed? ==> s.cells == [] && s.writer.WriterArrived?
                          && forall r :: 0 <= r < |s.readers| ==> s.readers[r].phase.ReaderArrived?)
  }

  lemma InitialInv(readers: nat, script: seq<Reading>)
    requires readers > 0
    ensures Inv(Initial(readers, script))
  {
    var s := Initial(readers, script);
    forall r | 0 <= r < readers ensures ReaderOk(s, r) && Cursors(s)[r] == 0 {
      assert s.readers[r] == Reader(Running, []);
    }
  }

  lemma ReadingsAppend(ms: seq<Message>, m: Message)
    ensures ReadingsIn(ms + [m]) == if m.Got? then ReadingsIn(ms) + [m.reading] else ReadingsIn(ms)
  {
    assert (ms + [m])[..|ms|] == ms;
  }

  /** What the invariant makes of a read: the next reading of the history if there
      is one left, and otherwise the order to wait or to terminate. */
  ghost function Answer(s: State, id: nat): Message
    requires id < |s.readers|
  {
    var k := |Consumed(s, id)|;
    if k < |s.hist| then Got(s.hist[k]) else if s.flag then Terminate else Wait
  }

  ghost predicate Answered(s: State, id: nat, s': State)
    requires id < |s.readers|
  {
    && !s.main.Freed?
    && s' == s.(cells := s'.cells, readers := s.readers[id := Heard(s.readers[id], Answer(s, id))])
    && Represents(s'.cells, s.hist,
                  if Answer(s, id).Got? then Cursors(s)[id := Cursors(s)[id] + 1] else Cursors(s))
  }

  /** Reading the buffer, in terms of history and cursors. */
  lemma ReadAnswers(cells: seq<Cell>, hist: seq<Reading>, cursors: seq<nat>, flag: bool, id: nat)
    requires cursors != [] && Represents(cells, hist, cursors) && id < |cursors|
    ensures Sized(cells, |cursors|) && cursors[id] <= |hist|
    ensures var (cells', code, data) := ReadFromBuffer(cells, flag, id, |cursors|);
      if cursors[id] < |hist| then
        && ToMessage(code, data) == Got(hist[cursors[id]])
        && Represents(cells', hist, cursors[id := cursors[id] + 1])
      else
        ToMessage(code, data) == (if flag then Terminate else Wait) && cells' == cells
  {
    RemoveRepresents(cells, hist, cursors, id);
  }

  lemma ReadStep(s: State, id: nat)
    requires Inv(s) && Enabled(s, Read(id))
    ensures Answered(s, id, Next(s, Read(id)))
  {
    assert ReaderOk(s, id);
    ReadAnswers(s.cells, s.hist, Cursors(s), s.flag, id);
  }

  lemma StepInv(s: State, a: Action)
    requires Inv(s) && Enabled(s, a)
    ensures Inv(Next(s, a))
  {
    var s' := Next(s, a);
    match a
    case Write(data) =>
      InsertRepresents(s.cells, s.hist, Cursors(s), data);
      WriteStep(s, s');
    case Read(id) =>
      ReadStep(s, id);
      AnsweredInv(s, id, s');
    case _ =>
      SilentStep(s, s');
  }

  lemma WriteStep(s: State, s': State)
    requires !s.flag && s'.readers == s.readers && s.hist <= s'.hist
    requires forall r :: 0 <= r < |s.readers| ==> ReaderOk(s, r)
    ensures Cursors(s') == Cursors(s)
    ensures forall r :: 0 <= r < |s'.readers| ==> ReaderOk(s', r)
  {
    forall r | 0 <= r < |s'.readers| ensures ReaderOk(s', r) && Cursors(s')[r] == Cursors(s)[r] {
      assert ReaderOk(s, r);
    }
  }

  /** A step that inserts nothing and in which no reader hears anything. */
  lemma SilentStep(s: State, s': State)
    requires s'.hist == s.hist && (s.flag ==> s'.flag) && |s'.readers| == |s.readers|
    requires forall r :: 0 <= r < |s.readers| ==> ReaderOk(s, r)
    requires forall r :: 0 <= r < |s.readers| ==>
               s'.readers[r].received == s.readers[r].received
               && (s'.readers[r].phase.Running? <==> s.readers[r].phase.Running?)
    ensures Cursors(s') == Cursors(s)
    ensures forall r :: 0 <= r < |s'.readers| ==> ReaderOk(s', r)
  {
    forall r | 0 <= r < |s'.readers| ensures ReaderOk(s', r) && Cursors(s')[r] == Cursors(s)[r] {
      assert ReaderOk(s, r);
    }
  }

  lemma HeardOk(s: State, id: nat, s': State)
    requires id < |s.readers| && ReaderOk(s, id) && s.readers[id].phase.Running?
    requires s'.readers == s.readers[id := Heard(s.readers[id], Answer(s, id))]
    requires s'.hist == s.hist && s'.flag == s.flag
    ensures ReaderOk(s', id)
    ensures |Consumed(s', id)| == |Consumed(s, id)| + if Answer(s, id).Got? then 1 else 0
  {
    var ms, m := s.readers[id].received, Answer(s, id);
    ReadingsAppend(ms, m);
    assert (ms + [m])[..|ms|] == ms;
  }

  /** A reader that hears nothing keeps what it has, whatever the others do. */
  lemma Unheard(s: State, s': State, r: nat)
    requires r < |s.readers| && r < |s'.readers| && s'.readers[r] == s.readers[r]
    requires s'.hist == s.hist && s'.flag == s.flag
    ensures Consumed(s', r) == Consumed(s, r)
    ensures ReaderOk(s', r) <==> ReaderOk(s, r)
  {
  }

  lemma AnsweredReader(s: State, id: nat, s': State, r: nat)
    requires id < |s.readers| && s.readers[id].phase.Running? && Answered(s, id, s')
    requires r < |s.readers| && ReaderOk(s, r)
    ensures ReaderOk(s', r)
    ensures |Consumed(s', r)| == |Consumed(s, r)| + if r == id && Answer(s, id).Got? then 1 else 0
  {
    if r == id {
      HeardOk(s, id, s');
    } else {
      Unheard(s, s', r);
    }
  }

  lemma AnsweredAll(s: State, id: nat, s': State)
    requires forall r :: 0 <= r < |s.readers| ==> ReaderOk(s, r)
    requires id < |s.readers| && s.readers[id].phase.Running? && Answered(s, id, s')
    ensures forall r :: 0 <= r < |s'.readers| ==> ReaderOk(s', r)
    ensures Cursors(s') == if Answer(s, id).Got? then Cursors(s)[id := Cursors(s)[id] + 1] else Cursors(s)
  {
    var c := if Answer(s, id).Got? then Cursors(s)[id := Cursors(s)[id] + 1] else Cursors(s);
    forall r | 0 <= r < |s'.readers| ensures ReaderOk(s', r) && Cursors(s')[r] == c[r] {
      assert ReaderOk(s, r);
      AnsweredReader(s, id, s', r);
    }
  }

  lemma AnsweredInv(s: State, id: nat, s': State)
    requires Inv(s) && id < |s.readers| && s.readers[id].phase.Running? && Answered(s, id, s')
    ensures Inv(s')
  {
    AnsweredAll(s, id, s');
  }

  lemma {:induction false} RunInv(readers: nat, actions: seq<Action>, states: seq<State>, k: nat)
    requires readers > 0 && Run(readers, actions, states) && k < |states|
    ensures Inv(states[k]) && |states[k].readers| == readers
  {
    if k == 0 {
      InitialInv(readers, Script(states));
    } else {
      RunInv(readers, actions, states, k - 1);
      assert StepAt(actions, states, k - 1);
      StepInv(states[k - 1], actions[k - 1]);
    }
  }

  /** What one step means to reader r. */
  ghost predicate Effect(s: State, a: Action, s': State, r: nat)
    requires r < |s.readers| == |s'.readers|
  {
    && (s.flag ==> s'.flag && s'.hist == s.hist)
    && if a == Read(r) then
         && s.readers[r].phase.Running?
         && s'.readers[r] == Heard(s.readers[r], Answer(s, r))
         && |Consumed(s', r)| == |Consumed(s, r)| + if Answer(s, r).Got? then 1 else 0
       else
         && s'.readers[r].received == s.readers[r].received
         && (s'.readers[r].phase.Running? <==> s.readers[r].phase.Running?)
  }

  lemma StepEffect(s: State, a: Action, r: nat)
    requires Inv(s) && Enabled(s, a) && r < |s.readers|
    ensures |Next(s, a).readers| == |s.readers| && Effect(s, a, Next(s, a), r)
  {
    if a == Read(r) {
      ReadStep(s, r);
      assert ReaderOk(s, r);
      HeardOk(s, r, Next(s, a));
    } else if a.Read? {
      ReadStep(s, a.id);
    }
  }

  lemma RunReader(readers: nat, actions: seq<Action>, states: seq<State>, k: nat, r: nat)
    requires readers > 0 && Run(readers, actions, states) && k < |states| && r < readers
    ensures |states[k].readers| == readers && ReaderOk(states[k], r)
  {
    RunInv(readers, actions, states, k);
  }

  lemma RunEffect(readers: nat, actions: seq<Action>, states: seq<State>, k: nat, r: nat)
    requires readers > 0 && Run(readers, actions, states) && k < |actions| && r < readers
    ensures |states[k].readers| == |states[k + 1].readers| == readers
    ensures Effect(states[k], actions[k], states[k + 1], r)
    ensures ReaderOk(states[k], r) && Enabled(states[k], actions[k])
  {
    RunInv(readers, actions, states, k);
    assert StepAt(actions, states, k);
    StepEffect(states[k], actions[k], r);
  }

  // ----- what every run keeps -----

  /** Exactly once and in order, whatever the other threads do: what a reader has
      consumed, followed by the data of the cells it has not flagged, is everything
      ever inserted. */
  lemma EachReaderSeesTheHistory(readers: nat, actions: seq<Action>, states: seq<State>, k: nat, r: nat)
    requires readers > 0 && Run(readers, actions, states) && k < |states| && r < readers
    ensures r < |states[k].readers|
    ensures !states[k].main.Freed? ==>
              && Sized(states[k].cells, readers)
              && Consumed(states[k], r) + Unread(states[k].cells, r) == states[k].hist
  {
    RunInv(readers, actions, states, k);
    if !states[k].main.Freed? {
      SeesTheHistory(states[k], r);
    }
  }

  lemma SeesTheHistory(s: State, r: nat)
    requires Inv(s) && r < |s.readers| && !s.main.Freed?
    ensures Sized(s.cells, |s.readers|)
    ensures Consumed(s, r) + Unread(s.cells, r) == s.hist
  {
    assert ReaderOk(s, r);
    UnreadIsRest(s.cells, s.hist, Cursors(s), r);
  }

  /** The buffer holds exactly what the slowest reader has still to read. */
  lemma LengthIsSlowest(readers: nat, actions: seq<Action>, states: seq<State>, k: nat)
    requires readers > 0 && Run(readers, actions, states) && k < |states| && !states[k].main.Freed?
    ensures Cursors(states[k]) != []
    ensures |states[k].cells| == |states[k].hist| - Min(Cursors(states[k]))
  {
    RunInv(readers, actions, states, k);
  }

  /** What is in the history and what is still to be written are the script. */
  lemma {:induction false} HistoryIsScript(readers: nat, actions: seq<Action>, states: seq<State>, k: nat)
    requires readers > 0 && Run(readers, actions, states) && k < |states|
    ensures states[k].hist + states[k].pending == Script(states)
    ensures states[k].flag ==> states[k].hist == Script(states)
  {
    if k > 0 {
      HistoryIsScript(readers, actions, states, k - 1);
      assert StepAt(actions, states, k - 1);
      RunInv(readers, actions, states, k);
      if actions[k - 1].Write? {
        Assoc(states[k - 1].hist, [actions[k - 1].data], states[k].pending);
      }
    }
  }
}
