/** The storage thread: it empties its side of the buffer into a database table
    and reconnects when an insertion fails. The database may refuse any statement;
    a refused statement leaves the rows as they are. */
module Storage {
  import opened Wrappers
  import opened Readings
  import opened Protocol

  /** Whether opening the database, dropping the table and creating it succeed. */
  datatype Opening = Opening(opens: bool, drops: bool, creates: bool)

  datatype Status = Succeeded | Failed | StillRunning

  /** How far the thread has come on the messages heard so far. */
  datatype Ending = AtBarrier | Aborted | Ongoing

  /** rows: the table; next: messages used; clear: the clear-up flag. */
  datatype Thread = Thread(ending: Ending, rows: seq<Reading>, next: nat, clear: bool)

  // ----- what the loops compute -----

  /** init_connection: whether there is a connection, and the rows then. */
  function Connect(clear: bool, o: Opening, rows: seq<Reading>): (bool, seq<Reading>) {
    if !o.opens then (false, rows)
    else if clear && !o.drops then (false, rows)
    else (o.creates, if clear then [] else rows)
  }

  /** insert_sensor_from_buffer from message i on; inserted[k] tells whether the
      insertion of message k's reading is accepted. */
  function Drain(ms: seq<Message>, inserted: seq<bool>, i: nat, rows: seq<Reading>): (Status, seq<Reading>, nat)
    requires i <= |ms| == |inserted|
    decreases |ms| - i
  {
    if i == |ms| then (StillRunning, rows, i)
    else match ms[i]
      case Wait => Drain(ms, inserted, i + 1, rows)
      case Terminate => (Succeeded, rows, i + 1)
      case Got(data) =>
        if inserted[i] then Drain(ms, inserted, i + 1, rows + [data]) else (Failed, rows, i + 1)
  }

  /** The attempts from number `try` on, of which opens[try - 1] is the outcome. */
  function Attempts(ms: seq<Message>, inserted: seq<bool>, opens: seq<Opening>, try: nat, clear: bool,
                    i: nat, rows: seq<Reading>): (t: Thread)
    requires i <= |ms| == |inserted| && 1 <= try <= |opens| + 1
    decreases |opens| - try
  {
    if try > |opens| then Thread(Aborted, rows, i, clear)
    else
      var (connected, start) := Connect(clear, opens[try - 1], rows);
      if !connected then Attempts(ms, inserted, opens, try + 1, clear, i, start)
      else
        var (status, rows', next) := Drain(ms, inserted, i, start);
        DrainStores(ms, inserted, i, start);
        match status
        case Succeeded => Thread(AtBarrier, rows', next, false)
        case StillRunning => Thread(Ongoing, rows', next, false)
        case Failed => Attempts(ms, inserted, opens, try + 1, false, next, rows')
  }

  // ----- stored and lost readings -----

  /** The reading of message k, if it has one and its insertion went as wanted. */
  function Of(ms: seq<Message>, inserted: seq<bool>, k: nat, wanted: bool): seq<Reading>
    requires k < |ms| == |inserted|
  {
    if ms[k].Got? && inserted[k] == wanted then [ms[k].reading] else []
  }

  /** The readings of messages i to j whose insertion went as wanted. */
  function Taken(ms: seq<Message>, inserted: seq<bool>, i: nat, j: nat, wanted: bool): seq<Reading>
    requires i <= j <= |ms| == |inserted|
    decreases j - i
  {
    if i == j then [] else Of(ms, inserted, i, wanted) + Taken(ms, inserted, i + 1, j, wanted)
  }

  /** The readings of messages i to j that were inserted. */
  function Stored(ms: seq<Message>, inserted: seq<bool>, i: nat, j: nat): seq<Reading>
    requires i <= j <= |ms| == |inserted|
  {
    Taken(ms, inserted, i, j, true)
  }

  /** The readings of messages i to j that were taken from the buffer in vain. */
  function Lost(ms: seq<Message>, inserted: seq<bool>, i: nat, j: nat): seq<Reading>
    requires i <= j <= |ms| == |inserted|
  {
    Taken(ms, inserted, i, j, false)
  }

  lemma {:induction false} TakenJoin(ms: seq<Message>, inserted: seq<bool>, i: nat, j: nat, k: nat, wanted: bool)
    requires i <= j <= k <= |ms| == |inserted|
    ensures Taken(ms, inserted, i, k, wanted) == Taken(ms, inserted, i, j, wanted) + Taken(ms, inserted, j, k, wanted)
    decreases j - i
  {
    if i < j {
      TakenJoin(ms, inserted, i + 1, j, k, wanted);
      Assoc(Of(ms, inserted, i, wanted), Taken(ms, inserted, i + 1, j, wanted), Taken(ms, inserted, j, k, wanted));
    }
  }

  lemma Joined(ms: seq<Message>, inserted: seq<bool>, i: nat, j: nat, k: nat)
    requires i <= j <= k <= |ms| == |inserted|
    ensures Stored(ms, inserted, i, k) == Stored(ms, inserted, i, j) + Stored(ms, inserted, j, k)
    ensures Lost(ms, inserted, i, k) == Lost(ms, inserted, i, j) + Lost(ms, inserted, j, k)
  {
    TakenJoin(ms, inserted, i, j, k, true);
    TakenJoin(ms, inserted, i, j, k, false);
  }

  lemma Unroll(ms: seq<Message>, inserted: seq<bool>, i: nat, j: nat)
    requires i < |ms| == |inserted|
    ensures i < j <= |ms| ==>
              && Stored(ms, inserted, i, j) == Of(ms, inserted, i, true) + Stored(ms, inserted, i + 1, j)
              && Lost(ms, inserted, i, j) == Of(ms, inserted, i, false) + Lost(ms, inserted, i + 1, j)
    ensures Stored(ms, inserted, i + 1, i + 1) == Lost(ms, inserted, i + 1, i + 1) == []
  {
  }

  /** One pass of the consumer loop ends on the message that ended it. */
  lemma {:induction false} DrainEnds(ms: seq<Message>, inserted: seq<bool>, i: nat, rows: seq<Reading>)
    requires i <= |ms| == |inserted|
    ensures var (status, rows', next) := Drain(ms, inserted, i, rows);
      && i <= next <= |ms|
      && (status == Succeeded ==> i < next && ms[next - 1].Terminate? && NoTerminate(ms, i, next - 1))
      && (status == Failed ==> i < next && ms[next - 1].Got? && NoTerminate(ms, i, next))
      && (status == StillRunning ==> next == |ms| && NoTerminate(ms, i, next))
    decreases |ms| - i
  {
    if i < |ms| {
      if ms[i].Wait? {
        DrainEnds(ms, inserted, i + 1, rows);
      } else if ms[i].Got? && inserted[i] {
        DrainEnds(ms, inserted, i + 1, rows + [ms[i].reading]);
      }
    }
  }

  /** It appends what it stores, and loses only a reading on which it fails. */
  lemma {:induction false} DrainStores(ms: seq<Message>, inserted: seq<bool>, i: nat, rows: seq<Reading>)
    requires i <= |ms| == |inserted|
    ensures var (status, rows', next) := Drain(ms, inserted, i, rows);
      && i <= next <= |ms|
      && rows' == rows + Stored(ms, inserted, i, next)
      && |Lost(ms, inserted, i, next)| == (if status == Failed then 1 else 0)
    decreases |ms| - i
  {
    if i < |ms| {
      Unroll(ms, inserted, i, Drain(ms, inserted, i, rows).2);
      if ms[i].Wait? {
        DrainStores(ms, inserted, i + 1, rows);
      } else if ms[i].Got? && inserted[i] {
        DrainStores(ms, inserted, i + 1, rows + [ms[i].reading]);
      }
    }
  }

  /** What holds between two attempts: nothing was read while the clear-up flag is
      still up; afterwards the table is exactly what was stored; and at most one
      reading is lost per attempt. */
  ghost predicate Between(ms: seq<Message>, inserted: seq<bool>, try: nat, clear: bool, i: nat, rows: seq<Reading>)
    requires i <= |ms| == |inserted|
  {
    && 1 <= try
    && (clear ==> i == 0)
    && (!clear ==> rows == Stored(ms, inserted, 0, i))
    && |Lost(ms, inserted, 0, i)| < try
    && NoTerminate(ms, 0, i)
  }

  /** Bounded loss: a thread that reaches the barrier has been told to terminate and
      leaves in the table, in order and without older rows, everything it read but
      for fewer readings than there were attempts. */
  lemma {:induction false} BoundedLoss(ms: seq<Message>, inserted: seq<bool>, opens: seq<Opening>, try: nat,
                                       clear: bool, i: nat, rows: seq<Reading>)
    requires i <= |ms| == |inserted| && 1 <= try <= |opens| + 1
    requires Between(ms, inserted, try, clear, i, rows)
    ensures var t := Attempts(ms, inserted, opens, try, clear, i, rows);
      && i <= t.next <= |ms|
      && (!t.clear ==> t.rows == Stored(ms, inserted, 0, t.next))
      && |Lost(ms, inserted, 0, t.next)| <= |opens|
      && (t.ending == AtBarrier ==>
            && !t.clear && |Lost(ms, inserted, 0, t.next)| < |opens|
            && 0 < t.next && ms[t.next - 1].Terminate? && NoTerminate(ms, 0, t.next - 1))
    decreases |opens| - try
  {
    if try <= |opens| {
      var (connected, start) := Connect(clear, opens[try - 1], rows);
      if !connected {
        BoundedLoss(ms, inserted, opens, try + 1, clear, i, start);
      } else {
        var (status, rows', next) := Drain(ms, inserted, i, start);
        DrainStores(ms, inserted, i, start);
        DrainEnds(ms, inserted, i, start);
        Joined(ms, inserted, 0, i, next);
        if status == Failed {
          BoundedLoss(ms, inserted, opens, try + 1, false, next, rows');
        }
      }
    }
  }

  /** Once the clear-up flag is down no later attempt removes a row. */
  lemma {:induction false} RowsOnlyGrow(ms: seq<Message>, inserted: seq<bool>, opens: seq<Opening>, try: nat,
                                        i: nat, rows: seq<Reading>)
    requires i <= |ms| == |inserted| && 1 <= try <= |opens| + 1
    ensures rows <= Attempts(ms, inserted, opens, try, false, i, rows).rows
    decreases |opens| - try
  {
    if try <= |opens| {
      var (connected, start) := Connect(false, opens[try - 1], rows);
      if !connected {
        RowsOnlyGrow(ms, inserted, opens, try + 1, i, start);
      } else {
        var (status, rows', next) := Drain(ms, inserted, i, start);
        DrainStores(ms, inserted, i, start);
        if status == Failed {
          RowsOnlyGrow(ms, inserted, opens, try + 1, next, rows');
        }
      }
    }
  }

  // ----- when the thread reaches the barrier -----

  /** A connection is made: the database opens, the table is created, and dropped
      before that as long as the clear-up flag is up. */
  predicate Connects(clear: bool, o: Opening) {
    o.opens && o.creates && (clear ==> o.drops)
  }

  /** The connections that tries from number `try` on can make; the clear-up flag
      goes down with the first. */
  function Connections(opens: seq<Opening>, try: nat, clear: bool): (n: nat)
    requires 1 <= try <= |opens| + 1
    ensures n <= |opens| + 1 - try
    decreases |opens| - try
  {
    if try > |opens| then 0
    else if Connects(clear, opens[try - 1]) then 1 + Connections(opens, try + 1, false)
    else Connections(opens, try + 1, clear)
  }

  /** Progress: every refused insertion costs one connection. A thread that has heard
      ms, of which at most the last is the order to terminate, aborts exactly when
      the refused insertions are as many as the connections it could make; otherwise
      it is at the barrier exactly when it has been told to terminate. */
  lemma {:induction false} Progress(ms: seq<Message>, inserted: seq<bool>, opens: seq<Opening>, try: nat,
                                    clear: bool, i: nat, rows: seq<Reading>)
    requires i <= |ms| == |inserted| && 1 <= try <= |opens| + 1
    requires NoTerminate(ms, i, |ms| - 1)
    ensures var t, lost := Attempts(ms, inserted, opens, try, clear, i, rows), |Lost(ms, inserted, i, |ms|)|;
      && (t.ending == Aborted <==> lost >= Connections(opens, try, clear))
      && (t.ending == AtBarrier <==> lost < Connections(opens, try, clear) && i < |ms| && ms[|ms| - 1].Terminate?)
    decreases |opens| - try
  {
    if try <= |opens| {
      var (connected, start) := Connect(clear, opens[try - 1], rows);
      if !connected {
        Progress(ms, inserted, opens, try + 1, clear, i, start);
      } else {
        var (status, rows', next) := Drain(ms, inserted, i, start);
        DrainStores(ms, inserted, i, start);
        DrainEnds(ms, inserted, i, start);
        Joined(ms, inserted, i, next, |ms|);
        if status == Failed {
          Progress(ms, inserted, opens, try + 1, false, next, rows');
        }
      }
    }
  }

  /** With every opening good there are as many connections as tries. */
  lemma {:induction false} AllGood(opens: seq<Opening>, try: nat, clear: bool)
    requires 1 <= try <= |opens| + 1 && forall k :: 0 <= k < |opens| ==> opens[k] == Opening(true, true, true)
    ensures Connections(opens, try, clear) == |opens| + 1 - try
    decreases |opens| - try
  {
    if try <= |opens| {
      AllGood(opens, try + 1, false);
    }
  }

  /** If the database never opens, the thread aborts, with the rows as they were and
      no message used. */
  lemma {:induction false} NeverOpens(ms: seq<Message>, inserted: seq<bool>, opens: seq<Opening>, try: nat,
                                      clear: bool, i: nat, rows: seq<Reading>)
    requires i <= |ms| == |inserted| && 1 <= try <= |opens| + 1
    requires forall k :: 0 <= k < |opens| ==> !opens[k].opens
    ensures Attempts(ms, inserted, opens, try, clear, i, rows) == Thread(Aborted, rows, i, clear)
    decreases |opens| - try
  {
    if try <= |opens| {
      NeverOpens(ms, inserted, opens, try + 1, clear, i, rows);
    }
  }

  // ----- the loops themselves -----

  /** The database file: one table. */
  class Database {
    var rows: seq<Reading>

    constructor (rows: seq<Reading>)
      ensures this.rows == rows
    {
      this.rows := rows;
    }

    method InitConnection(clearUpFlag: bool, o: Opening) returns (connected: bool)
      modifies this
      ensures (connected, rows) == Connect(clearUpFlag, o, old(rows))
      ensures connected <==> o.opens && (clearUpFlag ==> o.drops) && o.creates
      ensures rows == if clearUpFlag && o.opens && o.drops then [] else old(rows)
    {
      if !o.opens { return false; }
      if clearUpFlag {
        if !o.drops { return false; }
        rows := [];
      }
      if !o.creates { return false; }
      return true;
    }

    method InsertSensor(data: Reading, accepted: bool) returns (stored: bool)
      modifies this
      ensures stored == accepted
      ensures rows == if accepted then old(rows) + [data] else old(rows)
    {
      if !accepted { return false; }
      rows := rows + [data];
      return true;
    }
  }

  method InsertSensorFromBuffer(db: Database, ms: seq<Message>, inserted: seq<bool>, from: nat)
    returns (status: Status, next: nat)
    requires from <= |ms| == |inserted|
    modifies db
    ensures (status, db.rows, next) == Drain(ms, inserted, from, old(db.rows))
  {
    next := from;
    while next < |ms|
      invariant from <= next <= |ms|
      invariant Drain(ms, inserted, next, db.rows) == Drain(ms, inserted, from, old(db.rows))
    {
      var message := ms[next];
      next := next + 1;
      if message.Wait? { continue; }
      if message.Terminate? { return Succeeded, next; }
      var stored := db.InsertSensor(message.reading, inserted[next - 1]);
      if !stored { return Failed, next; }
    }
    return StillRunning, next;
  }

  /** The strgmgr thread on the messages it has heard, one outcome of opening the
      database per try. With dbDisabled the connection is never tried. */
  method Strgmgr(db: Database, ms: seq<Message>, inserted: seq<bool>, opens: seq<Opening>, dbDisabled: bool)
    returns (ending: Ending, next: nat)
    requires |ms| == |inserted|
    modifies db
    ensures dbDisabled ==> ending == Aborted && next == 0 && db.rows == old(db.rows)
    ensures !dbDisabled ==>
              var t := Attempts(ms, inserted, opens, 1, true, 0, old(db.rows));
              ending == t.ending && next == t.next && db.rows == t.rows
    ensures !dbDisabled && ms != [] && NoTerminate(ms, 0, |ms| - 1) && ms[|ms| - 1].Terminate? ==>
              (ending == AtBarrier <==> |Lost(ms, inserted, 0, |ms|)| < Connections(opens, 1, true))
  {
    if NoTerminate(ms, 0, |ms| - 1) { Progress(ms, inserted, opens, 1, true, 0, db.rows); }
    var clearUpFlag, connected, errorCode := true, false, Succeeded;
    var tries := 1;
    next := 0;
    while tries <= |opens|
      invariant 1 <= tries <= |opens| + 1 && next <= |ms|
      invariant dbDisabled ==> !connected && next == 0 && db.rows == old(db.rows)
      invariant !dbDisabled ==>
                  Attempts(ms, inserted, opens, tries, clearUpFlag, next, db.rows)
                    == Attempts(ms, inserted, opens, 1, true, 0, old(db.rows))
      invariant connected ==> errorCode == Failed
      decreases |opens| - tries
    {
      if !dbDisabled { connected := db.InitConnection(clearUpFlag, opens[tries - 1]); }
      if connected {
        clearUpFlag := false;
        DrainStores(ms, inserted, next, db.rows);
        errorCode, next := InsertSensorFromBuffer(db, ms, inserted, next);
        if errorCode == Succeeded { break; }
        if errorCode == StillRunning { return Ongoing, next; }
      }
      tries := tries + 1;
    }
    if !connected { return Aborted, next; }
    if errorCode == Failed { return Aborted, next; }
    return AtBarrier, next;
  }
}
