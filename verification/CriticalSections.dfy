/** The gateway's shared state and its critical sections, in place: whatever order
    the threads get the mutex in, the sections compute the run of the state machine. */
module CriticalSections {
  import opened Readings
  import opened Wrappers
  import opened BufferSpec
  import opened Protocol
  import opened Shutdown
  import opened LinkedBuffer

  class Gateway {
    const sensorBuffer: SharedBuffer
    var flag: bool

    ghost predicate Valid()
      reads this, sensorBuffer, sensorBuffer.repr
    {
      sensorBuffer.Valid() && this !in sensorBuffer.repr
    }

    constructor (readers: nat)
      ensures Valid() && !flag && sensorBuffer.Cells() == [] && sensorBuffer.readerCount == readers
      ensures fresh(sensorBuffer) && sensorBuffer.repr == {}
    {
      sensorBuffer := new SharedBuffer(readers);
      flag := false;
    }

    /** write_to_buffer, under the mutex. */
    method WriteToBuffer(data: Reading)
      requires Valid()
      modifies sensorBuffer, sensorBuffer.repr
      ensures Valid() && flag == old(flag) && fresh(sensorBuffer.repr - old(sensorBuffer.repr))
      ensures sensorBuffer.Cells() == BufferSpec.Insert(old(sensorBuffer.Cells()), data, sensorBuffer.readerCount)
    {
      sensorBuffer.Insert(data);
    }

    /** read_from_buffer, under the mutex. */
    method ReadFromBuffer(id: nat) returns (message: Code, data: Option<Reading>)
      requires Valid()
      modifies sensorBuffer, sensorBuffer.repr
      ensures Valid() && flag == old(flag) && sensorBuffer.repr == old(sensorBuffer.repr)
      ensures Sized(old(sensorBuffer.Cells()), sensorBuffer.readerCount)
      ensures (sensorBuffer.Cells(), message, data)
           == Protocol.ReadFromBuffer(old(sensorBuffer.Cells()), flag, id, sensorBuffer.readerCount)
    {
      message, data := GetData, None;
      var result := sensorBuffer.Remove(id);
      if result == NoData {
        if flag { message := MustTerminate; } else { message := MustWait; }
      } else if result.Success? {
        data := Some(result.data);
      }
    }

    /** The end of the connmgr thread, under the mutex. */
    method RaiseFlag()
      requires Valid()
      modifies this`flag
      ensures Valid() && flag && sensorBuffer.Cells() == old(sensorBuffer.Cells())
    {
      flag := true;
    }

    /** What main does behind the barrier: with nothing left to read, nothing is freed. */
    method FreeBuffer() returns (released: seq<Node>)
      requires Valid()
      modifies sensorBuffer, sensorBuffer.repr
      ensures |released| == |old(sensorBuffer.Cells())|
      ensures forall i :: 0 <= i < |released| ==> sensorBuffer.Released(released[i])
    {
      released := sensorBuffer.Free();
    }

    // ----- one run, one critical section after another -----

    /** Buffer and flag are those of state s. */
    ghost predicate Refines(s: State)
      reads this, sensorBuffer, sensorBuffer.repr
    {
      && Valid() && sensorBuffer.readerCount == |s.readers|
      && sensorBuffer.Cells() == s.cells && flag == s.flag
    }

    /** The action of one thread; a read returns what the reader hears. */
    method Perform(a: Action, ghost s: State) returns (message: Option<Message>)
      requires Refines(s) && Enabled(s, a) && !a.MainFree?
      modifies this`flag, sensorBuffer, sensorBuffer.repr
      ensures Refines(Next(s, a)) && fresh(sensorBuffer.repr - old(sensorBuffer.repr))
      ensures message.Some? <==> a.Read?
      ensures a.Read? ==> Next(s, a).readers == s.readers[a.id := Heard(s.readers[a.id], message.value)]
    {
      message := None;
      match a
      case Write(data) => WriteToBuffer(data);
      case Raise => RaiseFlag();
      case Read(id) =>
        var code, data := ReadFromBuffer(id);
        message := Some(ToMessage(code, data));
      case _ =>
    }
  }

  /** What the readers hear in state s. */
  ghost predicate AllHeard(heard: seq<seq<Message>>, s: State) {
    |heard| == |s.readers| && forall r :: 0 <= r < |heard| ==> heard[r] == s.readers[r].received
  }

  /** A run, performed on the heap: every reader hears what the state machine says.
      (What main frees in the end is the next method's.) */
  method PerformRun(readers: nat, actions: seq<Action>, ghost states: seq<State>)
    returns (gateway: Gateway, heard: seq<seq<Message>>)
    requires readers > 0 && Run(readers, actions, states) && forall k :: 0 <= k < |actions| ==> !actions[k].MainFree?
    ensures fresh(gateway) && fresh(gateway.sensorBuffer) && fresh(gateway.sensorBuffer.repr)
    ensures gateway.Refines(states[|actions|]) && AllHeard(heard, states[|actions|])
  {
    gateway := new Gateway(readers);
    heard := seq(readers, _ => []);
    for k := 0 to |actions|
      invariant fresh(gateway) && fresh(gateway.sensorBuffer) && fresh(gateway.sensorBuffer.repr)
      invariant gateway.Refines(states[k]) && |states[k].readers| == readers && AllHeard(heard, states[k])
    {
      assert StepAt(actions, states, k);
      var message := gateway.Perform(actions[k], states[k]);
      if actions[k].Read? {
        var id := actions[k].id;
        heard := heard[id := heard[id] + [message.value]];
      }
    }
  }

  /** When main is past the barrier it finds no node left to free. */
  method Finish(gateway: Gateway, ghost readers: nat, ghost actions: seq<Action>, ghost states: seq<State>)
    returns (released: seq<Node>)
    requires readers > 0 && Run(readers, actions, states) && AllArrived(states[|actions|])
    requires gateway.Refines(states[|actions|])
    modifies gateway.sensorBuffer, gateway.sensorBuffer.repr
    ensures released == []
  {
    EmptyAtBarrier(readers, actions, states, |actions|);
    released := gateway.FreeBuffer();
  }
}
