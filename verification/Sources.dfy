/** Which connection each slot of a round is read from, and which ones the slots
    themselves watch. */
module Sources {
  import opened Readings
  import opened ListSpec
  import opened PollRound

  predicate Delivers(events: seq<Event>, i: nat)
    requires i < |events|
  {
    events[i].Readable? && events[i].data.Some?
  }

  /** The connection a read for slot i is made from. */
  function Source(p: Poll, events: seq<Event>, i: nat): int
    requires i < |events| && p.list != []
  {
    SourceOf(p, events[i], i)
  }

  /** The connection at index i by then, a new client if it is the server's slot. */
  function SourceOf(p: Poll, e: Event, i: nat): int
    requires p.list != []
  {
    if i == 0 && e.Readable? then e.newFd else p.list[Clamp(i, |p.list|)]
  }

  /** The connection slot i watches, a new client if it is the server's slot. */
  function Own(list: seq<int>, events: seq<Event>, i: nat): int
    requires i < |events| == |list|
  {
    if i == 0 && events[0].Readable? then events[0].newFd else list[i]
  }

  /** The readings of the round, each from the connection its own slot watches. */
  function OwnFrom(list: seq<int>, events: seq<Event>, i: nat): (sent: seq<(int, Reading)>)
    requires i <= |events| == |list|
    decreases |events| - i
  {
    if i == |events| then []
    else if Delivers(events, i) then
      [(Own(list, events, i), events[i].data.value)] + OwnFrom(list, events, i + 1)
    else OwnFrom(list, events, i + 1)
  }

  // ----- whose reading is it -----

  /** No slot after a closed one delivers, save the last slot. */
  ghost predicate OnlyLastAfterClose(events: seq<Event>) {
    forall i :: 0 <= i < |events| && Delivers(events, i) ==> FirstOrLast(events, i)
  }

  ghost predicate FirstOrLast(events: seq<Event>, i: nat)
    requires i < |events|
  {
    (forall a :: 0 <= a < i ==> !Closes(events, a)) || i == |events| - 1
  }

  ghost predicate SourceIsOwn(p: Poll, events: seq<Event>, i: nat)
    requires WellFormed(p, events) && i < |events|
  {
    Source(Before(p, events, i), events, i) == Own(p.list, events, i)
  }

  /** In a round that keeps array and list aligned, a delivering slot is read from
      the connection it watches exactly when no slot before it closes or it is the
      last. */
  lemma SlotIsOwnIff(p: Poll, events: seq<Event>, i: nat)
    requires Aligned(p) && WellFormed(p, events) && Benign(events) && i < |events| && Delivers(events, i)
    ensures SourceIsOwn(p, events, i) <==> FirstOrLast(events, i)
  {
    var a := NextClose(events, 0);
    if a < i {
      assert !Joins(events) by {
        if CloseCount(events, 0) == 0 { NoCloses(p.list, p.list, events, 0); }
      }
      forall j | 0 <= j < i && j != a ensures !Closes(events, j) {
        assert a < j && Closes(events, j) ==> Closes(events, i);
      }
      OwnAfterOneClose(p, events, a, i);
    } else {
      BeforeClose(p, events, i);
    }
  }

  /** After one close at slot a, slot i reads from its own connection only if it is
      the last slot and no client joined; otherwise it reads from its neighbour. */
  lemma OwnAfterOneClose(p: Poll, events: seq<Event>, a: nat, i: nat)
    requires Aligned(p) && WellFormed(p, events) && a < i < |events|
    requires Closes(events, a) && forall j :: 0 <= j < i && j != a ==> !Closes(events, j)
    ensures var q := Before(p, events, i);
      q.list != [] && (Source(q, events, i) == p.list[i] <==> i == |events| - 1 && !Joins(events))
  {
    var l := if Joins(events) then p.list + [events[0].newFd] else p.list;
    BeforeAfterClose(p, events, a, i);
    if Joins(events) {
      AppendDistinct(p.list, events[0].newFd);
      NeighbourAt(l, a, i);
    } else {
      NeighbourAt(l, a, i);
    }
  }

  lemma BeforeAfterClose(p: Poll, events: seq<Event>, a: nat, i: nat)
    requires WellFormed(p, events) && a < i <= |events|
    requires Closes(events, a) && forall j :: 0 <= j < i && j != a ==> !Closes(events, j)
    ensures Before(p, events, i).list
         == RemoveAt(if Joins(events) then p.list + [events[0].newFd] else p.list, a)
  {
    BeforeClose(p, events, a);
    BeforeOpen(p, events, a + 1, i);
  }

  lemma NeighbourAt(l: seq<int>, a: nat, i: nat)
    requires Distinct(l) && a < i < |l|
    ensures RemoveAt(l, a)[Clamp(i, |l| - 1)] == l[i] <==> i == |l| - 1
  {
    assert i + 1 < |l| ==> l[i] != l[i + 1];
  }

  /** The state in which slot i is handled. */
  function Before(p: Poll, events: seq<Event>, i: nat): (q: Poll)
    requires i <= |events| && WellFormed(p, events)
    ensures |events| <= |q.fds| && |q.list| >= |events| - i
  {
    if i == 0 then p else HandleSlot(Before(p, events, i - 1), events, i - 1)
  }

  lemma BeforeNext(p: Poll, events: seq<Event>, i: nat)
    requires i < |events| && WellFormed(p, events)
    ensures Before(p, events, i + 1) == HandleEvent(Before(p, events, i), events[i], i, |events|)
  {
  }

  lemma {:induction false} BeforeClose(p: Poll, events: seq<Event>, i: nat)
    requires WellFormed(p, events) && i <= |events|
    requires forall j :: 0 <= j < i ==> !Closes(events, j)
    ensures Before(p, events, i).list == if i > 0 && Joins(events) then p.list + [events[0].newFd] else p.list
  {
    if i > 0 {
      BeforeClose(p, events, i - 1);
      assert !Closes(events, i - 1);
      assert InsertAt(p.list, |p.list|, if Joins(events) then events[0].newFd else 0)
          == p.list + [if Joins(events) then events[0].newFd else 0];
    }
  }

  lemma {:induction false} BeforeOpen(p: Poll, events: seq<Event>, i: nat, j: nat)
    requires WellFormed(p, events) && 0 < i <= j <= |events|
    requires forall k :: i <= k < j ==> !Closes(events, k)
    ensures Before(p, events, j).list == Before(p, events, i).list
  {
    if i < j {
      BeforeOpen(p, events, i, j - 1);
      assert !Closes(events, j - 1);
    }
  }
}
