/** The data manager's sensors as values: each keeps its last readings and their
    average. */
module Windows {
  import opened Readings
  import opened ListSpec

  /** A mapped sensor: its last |values| readings, oldest first. */
  datatype Entry = Entry(id: nat, room: nat, ts: int, avg: real, values: seq<real>)

  /** What the data manager writes to the log pipe. */
  datatype Log = InvalidSensor(id: nat) | TooCold(id: nat, avg: real) | TooHot(id: nat, avg: real)

  /** The sum of the first k values. */
  function SumTo(s: seq<real>, k: nat): real
    requires k <= |s|
  {
    if k == 0 then 0.0 else SumTo(s, k - 1) + s[k - 1]
  }

  function Average(s: seq<real>): real
    requires |s| > 0
  {
    SumTo(s, |s|) / (|s| as real)
  }

  function Shifted(values: seq<real>, v: real): (r: seq<real>)
    requires |values| > 0
    ensures |r| == |values|
  {
    values[1..] + [v]
  }

  /** A sensor after one more reading. */
  function Take(e: Entry, r: Reading): (e': Entry)
    requires |e.values| > 0
    ensures |e'.values| == |e.values|
  {
    var values := Shifted(e.values, r.value);
    e.(ts := r.ts, values := values, avg := Average(values))
  }

  /** The first sensor with this id, |es| if there is none. */
  function Find(es: seq<Entry>, id: nat): (i: nat)
    ensures i <= |es|
    ensures i < |es| ==> es[i].id == id
    ensures forall j :: 0 <= j < i ==> es[j].id != id
  {
    if |es| == 0 || es[0].id == id then 0 else 1 + Find(es[1..], id)
  }

  /** Every sensor has a window. */
  ghost predicate Ready(es: seq<Entry>) {
    forall i :: 0 <= i < |es| ==> |es[i].values| > 0
  }

  function Feed(es: seq<Entry>, r: Reading): (es': seq<Entry>)
    requires Ready(es)
    ensures |es'| == |es| && Ready(es')
  {
    var i := Find(es, r.id);
    if i == |es| then es else es[i := Take(es[i], r)]
  }

  /** The log line a reading gives rise to: an unknown sensor, or a running average
      out of range while the oldest value of the window is not zero. */
  function LogOf(es: seq<Entry>, r: Reading, low: real, high: real): seq<Log>
    requires Ready(es)
  {
    var i := Find(es, r.id);
    if i == |es| then [InvalidSensor(r.id)] else AlertOf(Take(es[i], r), low, high)
  }

  function AlertOf(e: Entry, low: real, high: real): seq<Log>
    requires |e.values| > 0
  {
    if e.avg < low && e.values[0] != 0.0 then [TooCold(e.id, e.avg)]
    else if e.avg > high && e.values[0] != 0.0 then [TooHot(e.id, e.avg)]
    else []
  }

  function FeedAll(es: seq<Entry>, rs: seq<Reading>): (es': seq<Entry>)
    requires Ready(es)
    ensures |es'| == |es| && Ready(es')
  {
    if |rs| == 0 then es else Feed(FeedAll(es, rs[..|rs| - 1]), rs[|rs| - 1])
  }

  lemma FeedNext(es: seq<Entry>, rs: seq<Reading>, r: Reading, low: real, high: real)
    requires Ready(es)
    ensures FeedAll(es, rs + [r]) == Feed(FeedAll(es, rs), r)
    ensures LogAll(es, rs + [r], low, high) == LogAll(es, rs, low, high) + LogOf(FeedAll(es, rs), r, low, high)
  {
    assert (rs + [r])[..|rs|] == rs;
  }

  function LogAll(es: seq<Entry>, rs: seq<Reading>, low: real, high: real): seq<Log>
    requires Ready(es)
  {
    if |rs| == 0 then []
    else LogAll(es, rs[..|rs| - 1], low, high) + LogOf(FeedAll(es, rs[..|rs| - 1]), rs[|rs| - 1], low, high)
  }

  // ----- the map -----

  /** Rooms decide the order of the list; a line of the map is a room and an id. */
  function CompareRooms(x: (nat, nat), y: (nat, nat)): int {
    if x.0 > y.0 then 1 else if x.0 < y.0 then -1 else 0
  }

  /** The list after the lines of the map file, each inserted in order. */
  function Loaded(lines: seq<(nat, nat)>): seq<(nat, nat)> {
    if |lines| == 0 then []
    else
      var ks := Loaded(lines[..|lines| - 1]);
      var line := lines[|lines| - 1];
      InsertAt(ks, SortedIndex(ks, line, CompareRooms), line)
  }

  lemma LoadedNext(lines: seq<(nat, nat)>, k: nat)
    requires k < |lines|
    ensures var ks := Loaded(lines[..k]);
      Loaded(lines[..k + 1]) == InsertAt(ks, SortedIndex(ks, lines[k], CompareRooms), lines[k])
  {
    assert lines[..k + 1][..k] == lines[..k];
  }

  lemma RoomsPreorder()
    ensures TotalPreorder(CompareRooms)
  {
  }

  /** The list is sorted by room ... */
  lemma {:induction false} LoadedIsSorted(lines: seq<(nat, nat)>)
    ensures Sorted(Loaded(lines), CompareRooms)
    ensures forall i, j :: 0 <= i < j < |Loaded(lines)| ==> Loaded(lines)[i].0 <= Loaded(lines)[j].0
  {
    if |lines| > 0 {
      var ks, line := Loaded(lines[..|lines| - 1]), lines[|lines| - 1];
      LoadedIsSorted(lines[..|lines| - 1]);
      RoomsPreorder();
      SortedInsertStaysSorted(ks, line, line, CompareRooms);
    }
  }

  /** ... and holds exactly the lines of the map. */
  lemma {:induction false} LoadedIsPermutation(lines: seq<(nat, nat)>)
    ensures multiset(Loaded(lines)) == multiset(lines)
  {
    if |lines| > 0 {
      var front, line := lines[..|lines| - 1], lines[|lines| - 1];
      var ks := Loaded(front);
      LoadedIsPermutation(front);
      calc {
        multiset(Loaded(lines));
        { InsertMultiset(ks, SortedIndex(ks, line, CompareRooms), line); }
        multiset(ks) + multiset{line};
        multiset(front) + multiset{line};
        { LastLine(lines); }
        multiset(lines);
      }
    }
  }

  lemma LastLine(lines: seq<(nat, nat)>)
    requires lines != []
    ensures multiset(lines) == multiset(lines[..|lines| - 1]) + multiset{lines[|lines| - 1]}
  {
    assert lines == lines[..|lines| - 1] + [lines[|lines| - 1]];
  }

  // ----- the window in terms of the history -----

  /** The values of one sensor in a history, oldest first. */
  function ValuesOf(rs: seq<Reading>, id: nat): (vs: seq<real>)
    ensures |vs| <= |rs|
  {
    if |rs| == 0 then []
    else ValuesOf(rs[..|rs| - 1], id) + if rs[|rs| - 1].id == id then [rs[|rs| - 1].value] else []
  }

  /** The times of one sensor's readings in a history, oldest first. */
  function TimesOf(rs: seq<Reading>, id: nat): (ts: seq<int>)
    ensures |ts| == |ValuesOf(rs, id)|
  {
    if |rs| == 0 then []
    else TimesOf(rs[..|rs| - 1], id) + if rs[|rs| - 1].id == id then [rs[|rs| - 1].ts] else []
  }

  function Zeros(n: nat): (r: seq<real>)
    ensures |r| == n && forall i :: 0 <= i < n ==> r[i] == 0.0
  {
    seq(n, _ => 0.0)
  }

  /** The last n of n zeros followed by vs. */
  function Window(vs: seq<real>, n: nat): (w: seq<real>)
    ensures |w| == n
    ensures forall i :: 0 <= i < n ==> w[i] == if i + |vs| < n then 0.0 else vs[i + |vs| - n]
  {
    (Zeros(n) + vs)[|vs|..]
  }

  lemma WindowShift(vs: seq<real>, n: nat, v: real)
    requires n > 0
    ensures Shifted(Window(vs, n), v) == Window(vs + [v], n)
  {
  }

  /** Feeding a reading changes no sensor but the first one with its id. */
  lemma OthersUnaffected(es: seq<Entry>, r: Reading, i: nat)
    requires Ready(es) && i < |es|
    ensures Feed(es, r)[i].id == es[i].id && Feed(es, r)[i].room == es[i].room
    ensures i != Find(es, r.id) ==> Feed(es, r)[i] == es[i]
    ensures forall id :: Find(Feed(es, r), id) == Find(es, id)
  {
    var es' := Feed(es, r);
    assert forall j :: 0 <= j < |es| ==> es'[j].id == es[j].id;
    forall id ensures Find(es', id) == Find(es, id) {
      SameIds(es', es, id);
    }
  }

  lemma SameIds(es: seq<Entry>, es': seq<Entry>, id: nat)
    requires |es| == |es'| && forall j :: 0 <= j < |es| ==> es[j].id == es'[j].id
    ensures Find(es, id) == Find(es', id)
  {
  }

  /** After any history, the first sensor with an id holds the last values of that
      sensor, padded with zeros, their average, and the time of the last; a later
      duplicate of the id is never touched. */
  lemma {:induction false} WindowAfter(es: seq<Entry>, rs: seq<Reading>, i: nat)
    requires Ready(es) && i < |es|
    requires es[i].values == Zeros(|es[i].values|)
    ensures var e, e', vs := es[i], FeedAll(es, rs)[i], ValuesOf(rs, es[i].id);
      && e'.id == e.id && e'.room == e.room
      && (i == Find(es, e.id) ==>
            && e'.values == Window(vs, |e.values|)
            && (vs != [] ==> e'.avg == Average(e'.values) && e'.ts == TimesOf(rs, e.id)[|vs| - 1]))
      && (i != Find(es, e.id) ==> e' == e)
    ensures forall id :: Find(FeedAll(es, rs), id) == Find(es, id)
  {
    if |rs| == 0 {
      assert Window([], |es[i].values|) == Zeros(|es[i].values|);
    } else {
      var front, r := rs[..|rs| - 1], rs[|rs| - 1];
      WindowAfter(es, front, i);
      OthersUnaffected(FeedAll(es, front), r, i);
      if i == Find(es, r.id) {
        TakeNext(FeedAll(es, front)[i], r, rs, |es[i].values|);
      }
    }
  }

  /** One more reading of the sensor. */
  lemma {:induction false} TakeNext(e: Entry, r: Reading, rs: seq<Reading>, n: nat)
    requires rs != [] && r == rs[|rs| - 1] && e.id == r.id && n > 0
    requires e.values == Window(ValuesOf(rs[..|rs| - 1], e.id), n)
    ensures var e', vs := Take(e, r), ValuesOf(rs, e.id);
      && e'.values == Window(vs, n) && vs != []
      && e'.avg == Average(e'.values) && e'.ts == TimesOf(rs, e.id)[|vs| - 1]
  {
    WindowShift(ValuesOf(rs[..|rs| - 1], e.id), n, r.value);
  }

  // ----- from the map to the windows -----

  /** The sensors of the map, before any reading. */
  ghost predicate Mapped(es: seq<Entry>, lines: seq<(nat, nat)>, n: nat) {
    && |es| == |Loaded(lines)|
    && forall i :: 0 <= i < |es| ==> (es[i].room, es[i].id) == Loaded(lines)[i] && es[i].values == Zeros(n)
  }

  /** The sensors of the map, after the readings rs. */
  ghost predicate MappedAfter(es: seq<Entry>, lines: seq<(nat, nat)>, n: nat, rs: seq<Reading>)
    requires n > 0
  {
    && |es| == |Loaded(lines)|
    && forall i :: 0 <= i < |es| ==> SensorAfter(es[i], Loaded(lines), i, n, rs)
  }

  /** The first sensor with an id has the last n of its values, padded with zeros,
      their average and the time of the last; another one with the same id has none. */
  ghost predicate SensorAfter(e: Entry, keys: seq<(nat, nat)>, i: nat, n: nat, rs: seq<Reading>)
    requires n > 0 && i < |keys|
  {
    && (e.room, e.id) == keys[i]
    && var vs := ValuesOf(rs, e.id);
       if FirstWithId(keys, i) then
         && e.values == Window(vs, n)
         && (vs != [] ==> e.avg == Average(e.values) && e.ts == TimesOf(rs, e.id)[|vs| - 1])
       else e.values == Zeros(n)
  }

  ghost predicate FirstWithId(keys: seq<(nat, nat)>, i: nat)
    requires i < |keys|
  {
    forall j :: 0 <= j < i ==> keys[j].1 != keys[i].1
  }

  lemma WindowsOfMap(es: seq<Entry>, lines: seq<(nat, nat)>, n: nat, rs: seq<Reading>)
    requires n > 0 && Mapped(es, lines, n)
    ensures Ready(es) && MappedAfter(FeedAll(es, rs), lines, n, rs)
  {
    var keys := Loaded(lines);
    forall i | 0 <= i < |es| ensures SensorAfter(FeedAll(es, rs)[i], keys, i, n, rs) {
      WindowAfter(es, rs, i);
      FirstIsFound(es, keys, i);
    }
  }

  lemma {:induction false} FirstIsFound(es: seq<Entry>, keys: seq<(nat, nat)>, i: nat)
    requires |es| == |keys| && i < |es|
    requires forall j :: 0 <= j < |es| ==> (es[j].room, es[j].id) == keys[j]
    ensures FirstWithId(keys, i) <==> i == Find(es, es[i].id)
  {
    var f := Find(es, es[i].id);
    assert f <= i && keys[f].1 == keys[i].1;
    forall j | 0 <= j < f ensures keys[j].1 != keys[i].1 {
      assert es[j].id != es[i].id;
    }
  }

  /** The map has a line for the sensor. */
  ghost predicate InMap(lines: seq<(nat, nat)>, id: nat) {
    exists i :: 0 <= i < |lines| && lines[i].1 == id
  }

  lemma IdsOfLines(lines: seq<(nat, nat)>, keys: seq<(nat, nat)>, id: nat)
    requires multiset(lines) == multiset(keys) && InMap(lines, id)
    ensures InMap(keys, id)
  {
    var i :| 0 <= i < |lines| && lines[i].1 == id;
    assert lines[i] in multiset(keys);
    var j :| 0 <= j < |keys| && keys[j] == lines[i];
  }

  lemma {:induction false} FoundInMap(es: seq<Entry>, lines: seq<(nat, nat)>, n: nat, rs: seq<Reading>, id: nat)
    requires n > 0 && MappedAfter(es, lines, n, rs)
    ensures Find(es, id) < |es| <==> InMap(lines, id)
    ensures var k, vs := Find(es, id), ValuesOf(rs, id);
      k < |es| && vs != [] ==> es[k].avg == Average(Window(vs, n))
  {
    var keys, k := Loaded(lines), Find(es, id);
    forall i | 0 <= i < |es| ensures es[i].id == keys[i].1 && (keys[i].1 == id ==> k <= i) {
      assert SensorAfter(es[i], keys, i, n, rs);
    }
    LoadedIsPermutation(lines);
    if k < |es| {
      assert SensorAfter(es[k], keys, k, n, rs) && keys[k].1 == id;
      IdsOfLines(keys, lines, id);
    } else if InMap(lines, id) {
      IdsOfLines(lines, keys, id);
    }
  }

  // ----- what an average is -----

  /** A new value moves the average by what it adds over the oldest one, one n-th. */
  lemma AverageSlides(s: seq<real>, v: real)
    requires |s| > 0
    ensures Average(Shifted(s, v)) == Average(s) + (v - s[0]) / (|s| as real)
  {
    var n, t := |s| as real, Shifted(s, v);
    SumSlides(s, v, |s| - 1);
    assert SumTo(t, |s|) == SumTo(s, |s|) + (v - s[0]);
    Quotients(SumTo(s, |s|), v - s[0], n);
  }

  lemma {:induction false} SumSlides(s: seq<real>, v: real, k: nat)
    requires k < |s|
    ensures SumTo(Shifted(s, v), k) == SumTo(s, k + 1) - s[0]
  {
    if k > 0 {
      SumSlides(s, v, k - 1);
      assert Shifted(s, v)[k - 1] == s[k];
    }
  }

  lemma Quotients(a: real, b: real, n: real)
    requires n > 0.0
    ensures (a + b) / n == a / n + b / n
  {
  }

  /** Equal values have that value as their average; with the law above this fixes
      the average of every window. */
  lemma AverageOfEqual(s: seq<real>, x: real)
    requires |s| > 0 && forall i :: 0 <= i < |s| ==> s[i] == x
    ensures Average(s) == x
  {
    SumOfEqual(s, x, |s|);
  }

  lemma {:induction false} SumOfEqual(s: seq<real>, x: real, k: nat)
    requires k <= |s| && forall i :: 0 <= i < |s| ==> s[i] == x
    ensures SumTo(s, k) == (k as real) * x
  {
    if k > 0 {
      SumOfEqual(s, x, k - 1);
      assert (k as real) * x == ((k - 1) as real) * x + x;
    }
  }

  // ----- the average before the window is full -----

  /** The header promises an average of 0 until a window is full; the code sums what
      there is and divides by the length of the window, so the promise is kept
      exactly when the window is full or the values so far cancel out. */
  lemma AverageIsZeroIff(vs: seq<real>, n: nat)
    requires n > 0
    ensures (|vs| < n ==> Average(Window(vs, n)) == 0.0) <==> |vs| >= n || SumTo(vs, |vs|) == 0.0
  {
    if |vs| < n {
      assert Window(vs, n) == Zeros(n - |vs|) + vs;
      SumAfterZeros(vs, n - |vs|, |vs|);
    }
  }

  lemma {:induction false} SumAfterZeros(vs: seq<real>, m: nat, k: nat)
    requires k <= |vs|
    ensures SumTo(Zeros(m) + vs, m + k) == SumTo(vs, k)
  {
    if k > 0 {
      SumAfterZeros(vs, m, k - 1);
    } else if m > 0 {
      SumOfZeros(Zeros(m) + vs, m);
    }
  }

  lemma {:induction false} SumOfZeros(s: seq<real>, m: nat)
    requires m <= |s| && forall i :: 0 <= i < m ==> s[i] == 0.0
    ensures SumTo(s, m) == 0.0
  {
    if m > 0 {
      SumOfZeros(s, m - 1);
    }
  }

  /** One reading of 5 degrees in a window of five: the average is 1, not 0. */
  lemma AverageOfOne(id: nat, ts: int)
    ensures var vs := ValuesOf([Reading(id, 5.0, ts)], id);
      |vs| < 5 && Average(Window(vs, 5)) == 1.0
  {
    var rs := [Reading(id, 5.0, ts)];
    assert rs[..0] == [] && ValuesOf(rs, id) == [5.0];
    assert Window([5.0], 5) == Zeros(4) + [5.0];
    SumOfZeros(Zeros(4) + [5.0], 4);
  }

  // ----- alerts -----

  /** The oldest value of a window is not zero exactly when the window is full and
      the value then oldest is not zero. */
  lemma OldestNonZero(vs: seq<real>, n: nat)
    requires n > 0
    ensures Window(vs, n)[0] != 0.0 <==> |vs| >= n && vs[|vs| - n] != 0.0
  {
  }

  /** The alert due after a sensor has delivered the values vs: only a full window
      whose oldest value is not zero counts, and its average is out of range. */
  function Alert(id: nat, vs: seq<real>, n: nat, low: real, high: real): seq<Log>
    requires n > 0
  {
    var avg := Average(Window(vs, n));
    if |vs| < n || vs[|vs| - n] == 0.0 then []
    else if avg < low then [TooCold(id, avg)]
    else if avg > high then [TooHot(id, avg)]
    else []
  }

  /** A reading of a sensor that has no line in the map is reported, and changes
      nothing. */
  lemma UnknownSensor(es: seq<Entry>, lines: seq<(nat, nat)>, n: nat, rs: seq<Reading>, r: Reading,
                      low: real, high: real)
    requires n > 0 && Mapped(es, lines, n) && !InMap(lines, r.id)
    ensures Ready(es) && Feed(FeedAll(es, rs), r) == FeedAll(es, rs)
    ensures LogOf(FeedAll(es, rs), r, low, high) == [InvalidSensor(r.id)]
  {
    WindowsOfMap(es, lines, n, rs);
    FoundInMap(FeedAll(es, rs), lines, n, rs, r.id);
  }

  /** What is logged stays logged: the lines of later readings come after it. */
  lemma LogGrows(es: seq<Entry>, rs: seq<Reading>, r: Reading, low: real, high: real)
    requires Ready(es)
    ensures LogAll(es, rs, low, high) <= LogAll(es, rs + [r], low, high)
  {
    FeedNext(es, rs, r, low, high);
  }

  /** Whether a reading raises an alert, in terms of the history up to it. */
  lemma AlertIff(es: seq<Entry>, rs: seq<Reading>, r: Reading, n: nat, low: real, high: real)
    requires Ready(es) && n > 0
    requires Find(es, r.id) < |es| && es[Find(es, r.id)].values == Zeros(n)
    ensures LogOf(FeedAll(es, rs), r, low, high) == Alert(r.id, ValuesOf(rs + [r], r.id), n, low, high)
  {
    var i := Find(es, r.id);
    WindowAfter(es, rs, i);
    var e, vs := FeedAll(es, rs)[i], ValuesOf(rs, r.id);
    ValuesNext(rs, r);
    AlertAfter(e, r, vs, n, low, high);
  }

  lemma ValuesNext(rs: seq<Reading>, r: Reading)
    ensures ValuesOf(rs + [r], r.id) == ValuesOf(rs, r.id) + [r.value]
  {
    assert (rs + [r])[..|rs|] == rs;
  }

  lemma AlertAfter(e: Entry, r: Reading, vs: seq<real>, n: nat, low: real, high: real)
    requires n > 0 && e.id == r.id && e.values == Window(vs, n)
    ensures Alert(r.id, vs + [r.value], n, low, high) == AlertOf(Take(e, r), low, high)
  {
    WindowShift(vs, n, r.value);
    OldestNonZero(vs + [r.value], n);
  }
}
