/** The shared buffer as a value: a queue of readings, each with one "already
    read" flag for every reader. `readers` is the number of readers. */
module BufferSpec {
  import opened Readings

  datatype Cell = Cell(data: Reading, flags: seq<bool>)
  datatype Result = Failure | NoData | Success(data: Reading)

  function Insert(cells: seq<Cell>, data: Reading, readers: nat): seq<Cell> {
    cells + [Cell(data, seq(readers, _ => false))]
  }

  /** Every cell has a flag for each reader. */
  predicate Sized(cells: seq<Cell>, readers: nat) {
    forall i :: 0 <= i < |cells| ==> |cells[i].flags| == readers
  }

  predicate HasFlag(cells: seq<Cell>, id: nat) {
    forall i :: 0 <= i < |cells| ==> id < |cells[i].flags|
  }

  /** The first cell reader id has not read, |cells| if it has read them all. */
  function FirstUnread(cells: seq<Cell>, id: nat): (i: nat)
    requires HasFlag(cells, id)
    ensures i <= |cells|
    ensures forall j :: 0 <= j < i ==> cells[j].flags[id]
    ensures i < |cells| ==> !cells[i].flags[id]
  {
    if |cells| == 0 || !cells[0].flags[id] then 0 else 1 + FirstUnread(cells[1..], id)
  }

  function Marked(cell: Cell, id: nat): Cell
    requires id < |cell.flags|
  {
    cell.(flags := cell.flags[id := true])
  }

  function Remove(cells: seq<Cell>, id: nat, readers: nat): (seq<Cell>, Result)
    requires Sized(cells, readers)
  {
    if id >= readers then (cells, Failure)
    else
      var i := FirstUnread(cells, id);
      if i == |cells| then (cells, NoData)
      else
        var marked := Marked(cells[i], id);
        if i == 0 && false !in marked.flags then (cells[1..], Success(marked.data))
        else (cells[i := marked], Success(marked.data))
  }

  // ----- independent cursors over one history -----

  function Min(s: seq<nat>): (m: nat)
    requires s != []
    ensures m in s && forall i :: 0 <= i < |s| ==> m <= s[i]
  {
    MinOf(s, |s|)
  }

  function MinOf(s: seq<nat>, k: nat): (m: nat)
    requires 0 < k <= |s|
    ensures m in s && forall i :: 0 <= i < k ==> m <= s[i]
  {
    if k == 1 then s[0]
    else
      var m := MinOf(s, k - 1);
      if s[k - 1] < m then s[k - 1] else m
  }

  /** The cells stand for a history of which reader r has read the first
      cursors[r] readings: they are what the slowest reader has still to read, and
      a flag is set exactly when the reader's cursor has passed the cell. */
  ghost predicate Represents(cells: seq<Cell>, hist: seq<Reading>, cursors: seq<nat>)
    requires cursors != []
  {
    && (forall r :: 0 <= r < |cursors| ==> cursors[r] <= |hist|)
    && CellsFrom(cells, Min(cursors), hist, cursors)
  }

  /** The cells stand for the history from reading m on. */
  ghost predicate CellsFrom(cells: seq<Cell>, m: nat, hist: seq<Reading>, cursors: seq<nat>) {
    m + |cells| == |hist| && forall i :: 0 <= i < |cells| ==> CellAt(cells[i], m + i, hist, cursors)
  }

  /** The cell stands for reading p of the history. */
  ghost predicate CellAt(cell: Cell, p: nat, hist: seq<Reading>, cursors: seq<nat>) {
    && p < |hist| && cell.data == hist[p]
    && |cell.flags| == |cursors|
    && forall r :: 0 <= r < |cursors| ==> (cell.flags[r] <==> p < cursors[r])
  }

  lemma InsertRepresents(cells: seq<Cell>, hist: seq<Reading>, cursors: seq<nat>, data: Reading)
    requires cursors != [] && Represents(cells, hist, cursors)
    ensures Represents(Insert(cells, data, |cursors|), hist + [data], cursors)
  {
    var cells', hist' := Insert(cells, data, |cursors|), hist + [data];
    assert Min(cursors) in cursors;
    forall i | 0 <= i < |cells'| ensures CellAt(cells'[i], Min(cursors) + i, hist', cursors) {
      if i < |cells| {
        assert CellAt(cells[i], Min(cursors) + i, hist, cursors);
      }
    }
  }

  /** A reader's first unread cell is where its cursor stands. */
  lemma CursorIsFirstUnread(cells: seq<Cell>, hist: seq<Reading>, cursors: seq<nat>, id: nat)
    requires cursors != [] && Represents(cells, hist, cursors) && id < |cursors|
    ensures Sized(cells, |cursors|)
    ensures FirstUnread(cells, id) == cursors[id] - Min(cursors)
  {
    assert cursors[id] in cursors;
    forall i | 0 <= i < |cells| ensures |cells[i].flags| == |cursors| {
      assert CellAt(cells[i], Min(cursors) + i, hist, cursors);
    }
    var i := FirstUnread(cells, id);
    if i < |cells| {
      assert CellAt(cells[i], Min(cursors) + i, hist, cursors);
    }
    if i > 0 {
      assert CellAt(cells[i - 1], Min(cursors) + i - 1, hist, cursors);
    }
  }

  /** Whatever the other readers have done, a reader is told NO_DATA exactly when
      it has read the whole history, and otherwise gets its next reading; a cell
      goes when the last reader passes it. */
  lemma RemoveRepresents(cells: seq<Cell>, hist: seq<Reading>, cursors: seq<nat>, id: nat)
    requires cursors != [] && Represents(cells, hist, cursors) && id < |cursors|
    ensures Sized(cells, |cursors|)
    ensures var (cells', result) := Remove(cells, id, |cursors|);
      if cursors[id] == |hist| then result == NoData && cells' == cells
      else result == Success(hist[cursors[id]])
           && Represents(cells', hist, cursors[id := cursors[id] + 1])
  {
    CursorIsFirstUnread(cells, hist, cursors, id);
    assert cursors[id] in cursors;
    if cursors[id] < |hist| {
      var i := FirstUnread(cells, id);
      assert CellAt(cells[i], Min(cursors) + i, hist, cursors);
      AllPassed(cells[i], hist, cursors, id);
      MinAfterStep(cursors, id);
      if i == 0 && false !in Marked(cells[i], id).flags {
        FirstDropped(cells, Min(cursors), hist, cursors, id);
      } else {
        OneMarked(cells, Min(cursors), hist, cursors, id);
      }
    }
  }

  lemma FirstDropped(cells: seq<Cell>, m: nat, hist: seq<Reading>, cursors: seq<nat>, id: nat)
    requires id < |cursors| && cursors[id] == m && CellsFrom(cells, m, hist, cursors) && cells != []
    ensures CellsFrom(cells[1..], m + 1, hist, cursors[id := cursors[id] + 1])
  {
    forall j | 0 <= j < |cells[1..]| ensures CellAt(cells[1..][j], m + 1 + j, hist, cursors[id := cursors[id] + 1]) {
      assert CellAt(cells[j + 1], m + (j + 1), hist, cursors);
      CellAfterStep(cells[j + 1], m + (j + 1), hist, cursors, id);
    }
  }

  lemma OneMarked(cells: seq<Cell>, m: nat, hist: seq<Reading>, cursors: seq<nat>, id: nat)
    requires id < |cursors| && m <= cursors[id] < |hist| && CellsFrom(cells, m, hist, cursors)
    requires id < |cells[cursors[id] - m].flags|
    ensures CellsFrom(cells[cursors[id] - m := Marked(cells[cursors[id] - m], id)], m, hist,
                      cursors[id := cursors[id] + 1])
  {
    var i := cursors[id] - m;
    var cells' := cells[i := Marked(cells[i], id)];
    forall j | 0 <= j < |cells'| ensures CellAt(cells'[j], m + j, hist, cursors[id := cursors[id] + 1]) {
      assert CellAt(cells[j], m + j, hist, cursors);
      CellAfterStep(cells[j], m + j, hist, cursors, id);
    }
  }

  lemma CellAfterStep(cell: Cell, p: nat, hist: seq<Reading>, cursors: seq<nat>, id: nat)
    requires id < |cursors| && CellAt(cell, p, hist, cursors)
    ensures CellAt(if p == cursors[id] then Marked(cell, id) else cell, p, hist, cursors[id := cursors[id] + 1])
  {
  }

  /** The slowest cursor moves, by one, only if the reader was alone at the end. */
  lemma MinAfterStep(cursors: seq<nat>, id: nat)
    requires id < |cursors|
    ensures var m, m' := Min(cursors), Min(cursors[id := cursors[id] + 1]);
      && m <= m' <= m + 1
      && (m' == m + 1 <==> cursors[id] == m && forall r :: 0 <= r < |cursors| && r != id ==> cursors[r] > m)
  {
    var cursors' := cursors[id := cursors[id] + 1];
    var m, m' := Min(cursors), Min(cursors');
    var r :| 0 <= r < |cursors| && cursors[r] == m;
    assert m' <= cursors'[r];
    var r' :| 0 <= r' < |cursors| && cursors'[r'] == m';
    assert m <= cursors[r'];
    if k :| 0 <= k < |cursors| && k != id && cursors[k] <= m {
      assert m' <= cursors'[k];
    }
  }

  /** All flags of the marked cell are set exactly when it is the first cell and
      the slowest cursor moves past it. */
  lemma AllPassed(cell: Cell, hist: seq<Reading>, cursors: seq<nat>, id: nat)
    requires id < |cursors| && CellAt(cell, cursors[id], hist, cursors)
    ensures cursors[id] == Min(cursors) && false !in Marked(cell, id).flags
       <==> Min(cursors[id := cursors[id] + 1]) == Min(cursors) + 1
  {
    MinAfterStep(cursors, id);
    var flags := Marked(cell, id).flags;
    if cursors[id] == Min(cursors) && false !in flags {
      forall r | 0 <= r < |cursors| && r != id ensures cursors[r] > Min(cursors) {
        assert flags[r] in flags;
      }
    }
  }

  /** What reader id has still to read, oldest first. */
  function Unread(cells: seq<Cell>, id: nat): (r: seq<Reading>)
    requires HasFlag(cells, id)
  {
    if |cells| == 0 then []
    else (if cells[0].flags[id] then [] else [cells[0].data]) + Unread(cells[1..], id)
  }

  /** The unread cells of a reader are the history from its cursor on. */
  lemma UnreadIsRest(cells: seq<Cell>, hist: seq<Reading>, cursors: seq<nat>, id: nat)
    requires cursors != [] && Represents(cells, hist, cursors) && id < |cursors|
    ensures Sized(cells, |cursors|)
    ensures cursors[id] <= |hist| && Unread(cells, id) == hist[cursors[id]..]
  {
    CursorIsFirstUnread(cells, hist, cursors, id);
    var m := Min(cursors);
    forall i | 0 <= i < |cells|
      ensures cells[i].data == hist[m + i] && (cells[i].flags[id] <==> m + i < cursors[id])
    {
      assert CellAt(cells[i], Min(cursors) + i, hist, cursors);
    }
    assert cursors[id] in cursors;
    UnreadFrom(cells, hist, m, cursors[id], id);
  }

  lemma {:induction false} UnreadFrom(cells: seq<Cell>, hist: seq<Reading>, m: nat, k: nat, id: nat)
    requires m + |cells| == |hist| && k <= |hist| && HasFlag(cells, id)
    requires forall i :: 0 <= i < |cells| ==> cells[i].data == hist[m + i]
    requires forall i :: 0 <= i < |cells| ==> (cells[i].flags[id] <==> m + i < k)
    ensures Unread(cells, id) == hist[if m < k then k else m..]
  {
    if |cells| > 0 {
      UnreadFrom(cells[1..], hist, m + 1, k, id);
      assert m >= k ==> hist[m..] == [hist[m]] + hist[m + 1..];
    }
  }
}
