/** The data manager: its sensors are heap records in a pointer list, updated in
    place as readings come out of the buffer. */
module DataMgr {
  import opened Wrappers
  import opened Readings
  import opened ListSpec
  import opened Protocol
  import opened Windows
  import opened PointerList

  /** A sensor record. Its average is undefined until the first reading. */
  class Data {
    const id: nat
    const room: nat
    var ts: int
    var runningAvg: real
    const values: array<real>

    constructor (id: nat, room: nat, window: nat)
      ensures this.id == id && this.room == room
      ensures fresh(values) && values[..] == Zeros(window)
    {
      this.id, this.room, ts, runningAvg := id, room, 0, 0.0;
      values := new real[window](_ => 0.0);
    }

    ghost function View(): Entry
      reads this, values
    {
      Entry(id, room, ts, runningAvg, values[..])
    }

    /** calc_running_avg: shifts the window in place and sums it on the way. */
    method CalcRunningAvg(reading: Reading)
      requires values.Length > 0 && id == reading.id
      modifies this`runningAvg, values
      ensures View() == Take(old(View()), reading).(ts := ts)
    {
      ghost var was, shifted := values[..], Shifted(values[..], reading.value);
      runningAvg := 0.0;
      for i := 1 to values.Length
        invariant forall k :: 0 <= k < i - 1 ==> values[k] == shifted[k]
        invariant forall k :: i - 1 <= k < values.Length ==> values[k] == was[k]
        invariant runningAvg == SumTo(shifted, i - 1)
      {
        values[i - 1] := values[i];
        runningAvg := runningAvg + values[i - 1];
      }
      values[values.Length - 1] := reading.value;
      runningAvg := runningAvg + values[values.Length - 1];
      assert values[..] == shifted;
      runningAvg := runningAvg / (values.Length as real);
    }
  }

  /** compare_Data: by room. */
  function CompareData(x: Data, y: Data): int {
    CompareRooms((x.room, x.id), (y.room, y.id))
  }

  /** The map lines the records stand for: room and sensor id. */
  function Keys(records: seq<Data>): (ks: seq<(nat, nat)>)
    ensures |ks| == |records|
    ensures forall i :: 0 <= i < |records| ==> ks[i] == (records[i].room, records[i].id)
  {
    seq(|records|, i requires 0 <= i < |records| => (records[i].room, records[i].id))
  }

  lemma KeysInsert(records: seq<Data>, k: nat, data: Data)
    requires k <= |records|
    ensures Keys(InsertAt(records, k, data)) == InsertAt(Keys(records), k, (data.room, data.id))
  {
  }

  class DataManager {
    const list: DPList<Data>
    /** The elements of the list, and the objects that readings change: the
        records and their windows. */
    ghost var records: seq<Data>
    ghost var repr: set<object>

    ghost predicate Valid()
      reads this, list, list.repr
    {
      Holds(records) && list.repr !! repr && Owning()
    }

    /** The elements of the list are these records. */
    ghost predicate Holds(s: seq<Data>)
      reads list, list.repr
    {
      && list.Valid() && list.elementCompare == CompareData
      && list.Owning()
      && list.Elements() == s
    }

    ghost predicate Owning()
      reads this
    {
      && this !in repr && list !in repr
      && (forall i :: 0 <= i < |records| ==> Owned(i))
      && forall i, j :: 0 <= i < j < |records| ==>
           records[i] != records[j] && records[i].values != records[j].values
    }

    ghost predicate Owned(i: nat)
      requires i < |records|
      reads this
    {
      records[i] in repr && records[i].values in repr && records[i].values.Length > 0
    }

    /** No sensor has had a reading yet. */
    ghost predicate Untouched(window: nat)
      requires Owning()
      reads this, repr
    {
      forall i :: 0 <= i < |records| ==> Owned(i) && records[i].values[..] == Zeros(window)
    }

    ghost function Entries(): (es: seq<Entry>)
      requires Valid()
      reads this, list, list.repr, repr
      ensures |es| == |records| && Ready(es)
    {
      assert forall i :: 0 <= i < |records| ==> Owned(i);
      var es := seq(|records|, i requires 0 <= i < |records| && Owned(i) reads this, repr => records[i].View());
      assert forall i :: 0 <= i < |records| ==> Owned(i) && |es[i].values| == records[i].values.Length;
      es
    }

    constructor ()
      ensures Valid() && fresh(list) && records == [] && repr == {} && list.repr == {}
    {
      list := new DPList<Data>(x => x, CompareData);
      records, repr := [], {};
    }

    /** init_list_from_map on the lines of the map file. */
    method InitListFromMap(lines: seq<(nat, nat)>, window: nat)
      requires Valid() && records == [] && repr == {} && window > 0
      modifies this, list, list.repr
      ensures Valid() && Keys(records) == Loaded(lines) && Untouched(window)
      ensures fresh(repr - old(repr)) && fresh(list.repr - old(list.repr))
    {
      for k := 0 to |lines|
        invariant Valid() && Untouched(window)
        invariant fresh(repr - old(repr)) && fresh(list.repr - old(list.repr))
        invariant Keys(records) == Loaded(lines[..k])
      {
        var _ := AddSensor(lines, k, window);
      }
      assert lines[..|lines|] == lines;
    }

    method AddSensor(lines: seq<(nat, nat)>, k: nat, window: nat) returns (data: Data)
      requires Valid() && Untouched(window) && window > 0
      requires k < |lines| && Keys(records) == Loaded(lines[..k])
      modifies this, list, list.repr
      ensures Valid() && Untouched(window) && fresh(list.repr - old(list.repr))
      ensures fresh(data) && fresh(data.values) && repr == old(repr) + {data, data.values}
      ensures Keys(records) == Loaded(lines[..k + 1])
    {
      ghost var before := records;
      LoadedNext(lines, k);
      data := new Data(lines[k].1, lines[k].0, window);
      AddRecord(data, window);
      SameSortedIndex(before, data);
      KeysInsert(before, SortedIndex(before, data, CompareData), data);
    }

    method AddRecord(data: Data, ghost window: nat)
      requires Valid() && Untouched(window) && window > 0
      requires data !in repr && data.values !in repr && data.values[..] == Zeros(window)
      modifies this, list, list.repr
      ensures Valid() && Untouched(window) && fresh(list.repr - old(list.repr))
      ensures repr == old(repr) + {data, data.values}
      ensures records == InsertAt(old(records), SortedIndex(old(records), data, CompareData), data)
    {
      ghost var k := SortedIndex(records, data, CompareData);
      Link(data, k, window);
      Adopt(data, k, window);
    }

    method Link(data: Data, ghost k: nat, ghost window: nat)
      requires Valid() && Untouched(window) && k == SortedIndex(records, data, CompareData)
      modifies list, list.repr
      ensures Holds(InsertAt(records, k, data)) && Untouched(window)
      ensures list.repr !! repr && fresh(list.repr - old(list.repr))
    {
      var node := list.InsertSorted(data, false);
      assert node !in repr;
    }

    ghost method Adopt(data: Data, k: nat, window: nat)
      requires Owning() && Untouched(window) && k <= |records|
      requires Holds(InsertAt(records, k, data)) && list.repr !! repr
      requires data !in repr && data.values !in repr && window > 0 && data.values[..] == Zeros(window)
      modifies this
      ensures records == InsertAt(old(records), k, data) && repr == old(repr) + {data, data.values}
      ensures Valid() && Untouched(window)
    {
      records, repr := InsertAt(records, k, data), repr + {data, data.values};
      forall i | 0 <= i < |records| ensures Owned(i) && records[i].values[..] == Zeros(window) {
        if i < k { assert old(Owned(i)); }
        if i > k { assert old(Owned(i - 1)); }
      }
      forall i, j | 0 <= i < j < |records|
        ensures records[i] != records[j] && records[i].values != records[j].values
      {
        if i == k { assert old(Owned(j - 1)); }
        if j == k { assert old(Owned(i)); }
      }
    }

    /** get_data_from_list. */
    method GetDataFromList(id: nat) returns (data: Data?, ghost i: nat)
      requires Valid()
      ensures data == var k := Find(Entries(), id); if k < |records| then records[k] else null
      ensures i == Find(Entries(), id)
    {
      var size := list.Size();
      i := 0;
      for k := 0 to size
        invariant i == k && forall j :: 0 <= j < k ==> records[j].id != id
      {
        var element := list.GetElementAtIndex(k);
        if element.value.id == id {
          EntriesAre();
          FindIs(Entries(), id, k);
          return element.value, i;
        }
        i := i + 1;
      }
      EntriesAre();
      FindIs(Entries(), id, i);
      return null, i;
    }

    lemma EntriesAre()
      requires Valid()
      ensures forall j :: 0 <= j < |records| ==> Entries()[j].id == records[j].id
    {
    }

    method Update(data: Data, reading: Reading, ghost i: nat)
      requires Valid() && i < |records| && data == records[i] && data.id == reading.id
      modifies data, data.values
      ensures Valid() && Entries() == old(Entries())[i := Take(old(Entries())[i], reading)]
      ensures data.View() == Take(old(Entries())[i], reading)
    {
      ghost var es := Entries();
      assert Owned(i) && es[i] == data.View();
      data.ts := reading.ts;
      data.CalcRunningAvg(reading);
      assert Entries()[i] == Take(es[i], reading);
      assert forall j :: 0 <= j < |es| && j != i ==> Entries()[j] == es[j];
    }

    /** One reading out of the buffer; returns what goes to the log pipe. */
    method Accept(reading: Reading, low: real, high: real) returns (log: seq<Log>)
      requires Valid()
      modifies repr
      ensures Valid() && Entries() == Feed(old(Entries()), reading)
      ensures log == LogOf(old(Entries()), reading, low, high)
    {
      ghost var es := Entries();
      var data, i := GetDataFromList(reading.id);
      if data == null { return [InvalidSensor(reading.id)]; }
      EntriesAre();
      assert Owned(i);
      Update(data, reading, i);
      log := CheckRange(data, low, high);
    }

    /** Too cold or too hot, unless the oldest value is zero. */
    method CheckRange(data: Data, low: real, high: real) returns (log: seq<Log>)
      requires data.values.Length > 0
      ensures log == AlertOf(data.View(), low, high)
    {
      if data.runningAvg < low && data.values[0] != 0.0 {
        log := [TooCold(data.id, data.runningAvg)];
      } else if data.runningAvg > high && data.values[0] != 0.0 {
        log := [TooHot(data.id, data.runningAvg)];
      } else {
        log := [];
      }
    }

    method AcceptNext(reading: Reading, low: real, high: real, before: seq<Log>,
                      ghost es: seq<Entry>, ghost rs: seq<Reading>) returns (log: seq<Log>)
      requires Valid() && Ready(es)
      requires Entries() == FeedAll(es, rs) && before == LogAll(es, rs, low, high)
      modifies repr
      ensures Valid()
      ensures Entries() == FeedAll(es, rs + [reading]) && log == LogAll(es, rs + [reading], low, high)
    {
      FeedNext(es, rs, reading, low, high);
      var more := Accept(reading, low, high);
      log := before + more;
    }

    /** datamgr_parse_sensor_buffer on the lines of the map file and the messages
        heard; es are the sensors between the two. */
    method ParseSensorBuffer(lines: seq<(nat, nat)>, window: nat, ms: seq<Message>, low: real, high: real)
      returns (log: seq<Log>, next: nat, ghost es: seq<Entry>)
      requires Valid() && records == [] && repr == {} && window > 0
      modifies this, list, list.repr
      ensures Valid() && fresh(repr - old(repr)) && fresh(list.repr - old(list.repr))
      ensures Mapped(es, lines, window) && Ready(es) && next <= |ms|
      ensures Entries() == FeedAll(es, ReadingsIn(ms[..next]))
      ensures MappedAfter(Entries(), lines, window, ReadingsIn(ms[..next]))
      ensures log == LogAll(es, ReadingsIn(ms[..next]), low, high)
      ensures next > 0 ==> NoTerminate(ms, 0, next - 1)
      ensures next < |ms| ==> next > 0 && ms[next - 1].Terminate?
    {
      InitListFromMap(lines, window);
      UntouchedIsMapped(lines, window);
      es := Entries();
      log, next := Consume(ms, low, high);
      WindowsOfMap(es, lines, window, ReadingsIn(ms[..next]));
    }

    lemma UntouchedIsMapped(lines: seq<(nat, nat)>, window: nat)
      requires Valid() && Untouched(window) && Keys(records) == Loaded(lines)
      ensures Mapped(Entries(), lines, window)
    {
      forall i | 0 <= i < |records|
        ensures (Entries()[i].room, Entries()[i].id) == Loaded(lines)[i] && Entries()[i].values == Zeros(window)
      {
        assert Owned(i) && Entries()[i] == records[i].View();
      }
    }

    /** datamgr_get_avg; None stands for the null record it goes through when the
        sensor is unknown. */
    method GetAvg(id: nat) returns (avg: Option<real>)
      requires Valid()
      ensures avg == var k := Find(Entries(), id); if k < |records| then Some(Entries()[k].avg) else None
    {
      var data, i := GetDataFromList(id);
      if data == null { return None; }
      assert Entries()[i] == data.View();
      return Some(data.runningAvg);
    }

    /** The average of a sensor that has delivered values, after a whole run of the
        data manager. The header promises 0 while there are fewer values than the
        window holds; that is so exactly when they add up to 0. */
    method AverageAfter(lines: seq<(nat, nat)>, window: nat, ms: seq<Message>, low: real, high: real, id: nat)
      returns (avg: Option<real>, ghost vs: seq<real>, ghost next: nat)
      requires Valid() && records == [] && repr == {} && window > 0
      modifies this, list, list.repr
      ensures next <= |ms| && vs == ValuesOf(ReadingsIn(ms[..next]), id)
      ensures next > 0 ==> NoTerminate(ms, 0, next - 1)
      ensures next < |ms| ==> next > 0 && ms[next - 1].Terminate?
      ensures avg.Some? <==> InMap(lines, id)
      ensures avg.Some? && vs != [] ==>
                ((|vs| < window ==> avg.value == 0.0) <==> |vs| >= window || SumTo(vs, |vs|) == 0.0)
    {
      var log, n, es := ParseSensorBuffer(lines, window, ms, low, high);
      next := n;
      vs := ValuesOf(ReadingsIn(ms[..n]), id);
      avg := GetAvg(id);
      AverageIsZeroIff(vs, window);
      FoundInMap(Entries(), lines, window, ReadingsIn(ms[..n]), id);
    }

    /** The consumer loop of datamgr_parse_sensor_buffer on the messages heard. */
    method Consume(ms: seq<Message>, low: real, high: real)
      returns (log: seq<Log>, next: nat)
      requires Valid()
      modifies repr
      ensures Valid() && next <= |ms|
      ensures Entries() == FeedAll(old(Entries()), ReadingsIn(ms[..next]))
      ensures log == LogAll(old(Entries()), ReadingsIn(ms[..next]), low, high)
      ensures next > 0 ==> NoTerminate(ms, 0, next - 1)
      ensures next < |ms| ==> next > 0 && ms[next - 1].Terminate?
    {
      log, next := [], 0;
      ghost var es, rs := Entries(), [];
      while next < |ms|
        invariant Valid() && next <= |ms|
        invariant rs == ReadingsIn(ms[..next])
        invariant Entries() == FeedAll(es, rs) && log == LogAll(es, rs, low, high)
        invariant NoTerminate(ms, 0, next)
      {
        var message := ms[next];
        ReadingsNext(ms, next);
        next := next + 1;
        if message.Wait? { continue; }
        if message.Terminate? { break; }
        log := AcceptNext(message.reading, low, high, log, es, rs);
        rs := rs + [message.reading];
      }
    }
  }

  lemma ReadingsNext(ms: seq<Message>, k: nat)
    requires k < |ms|
    ensures ReadingsIn(ms[..k + 1]) == if ms[k].Got? then ReadingsIn(ms[..k]) + [ms[k].reading] else ReadingsIn(ms[..k])
  {
    assert ms[..k + 1] == ms[..k] + [ms[k]];
    ReadingsAppend(ms[..k], ms[k]);
  }

  lemma SameSortedIndex(records: seq<Data>, data: Data)
    ensures SortedIndex(records, data, CompareData)
         == SortedIndex(Keys(records), (data.room, data.id), CompareRooms)
  {
    assert forall i :: 0 <= i < |records| ==>
             CompareData(data, records[i]) == CompareRooms((data.room, data.id), Keys(records)[i]);
  }

  lemma FindIs(es: seq<Entry>, id: nat, i: nat)
    requires i <= |es| && (forall j :: 0 <= j < i ==> es[j].id != id)
    requires i < |es| ==> es[i].id == id
    ensures Find(es, id) == i
  {
  }
}
