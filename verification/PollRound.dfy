/** One round of the connection manager's poll loop, as a value.

    The manager keeps two structures side by side: the poll array and the list of
    connections, a connection being its descriptor. Slot i of the array should
    watch the connection at index i of the list. */
module PollRound {
  import opened Wrappers
  import opened Readings
  import opened ListSpec
  import opened Compaction

  /** What becomes of a slot. In slot 0, the server, Readable is a new client on
      descriptor newFd; elsewhere newFd has no meaning. The data is the outcome of
      the read made for the slot, whichever connection is read (module Clients says
      which, and what it has to say); None if there was no full reading. Then an
      assertion on the receive fails first: the source goes on from None only when
      it is built without assertions. */
  datatype Event = Quiet | Hangup | Readable(newFd: nat, data: Option<Reading>)

  datatype Poll = Poll(list: seq<int>, fds: seq<int>)

  ghost predicate Aligned(p: Poll) {
    && |p.list| <= |p.fds|
    && Distinct(p.list)
    && REMOVE_FD !in p.list
    && forall i :: 0 <= i < |p.list| ==> p.fds[i] == p.list[i]
  }

  /** Slot i ends in a close: poll() reported a hangup, or the read made for it failed. */
  predicate Closes(events: seq<Event>, i: nat)
    requires i < |events|
  {
    Ends(events[i], i)
  }

  predicate Ends(e: Event, i: nat) {
    e.Hangup? || (i > 0 && e.Readable? && e.data.None?)
  }

  /** Slot 0 brings a client that delivers its first reading and joins the list. */
  predicate Joins(events: seq<Event>) {
    |events| > 0 && events[0].Readable? && events[0].data.Some?
  }

  /** poll() was given a slot for each connection, and a new client comes on a
      descriptor that no connection has. */
  predicate WellFormed(p: Poll, events: seq<Event>) {
    && 0 < |events| == |p.list| <= |p.fds|
    && (events[0].Readable? ==> events[0].newFd !in p.list)
  }

  // ----- handling the slots -----

  function Close(p: Poll, i: nat): (q: Poll)
    requires i < |p.fds| && p.list != []
    ensures |q.fds| == |p.fds| && |q.list| == |p.list| - 1
  {
    Poll(RemoveAt(p.list, Clamp(i, |p.list|)), p.fds[i := REMOVE_FD])
  }

  /** A new client takes entry n of the reallocated array; it joins the list only
      if its first reading arrives. */
  function Accept(p: Poll, n: nat, newFd: nat, data: Option<Reading>): (q: Poll)
    requires n <= |p.fds|
    ensures |q.fds| == n + 1
  {
    Poll(if data.Some? then InsertAt(p.list, InsertIndex(n, |p.list|), newFd) else p.list,
         p.fds[..n] + [newFd])
  }

  function HandleSlot(p: Poll, events: seq<Event>, i: nat): (q: Poll)
    requires i < |events| <= |p.fds| && p.list != []
    ensures |events| <= |q.fds|
    ensures |q.list| >= |p.list| - 1
  {
    HandleEvent(p, events[i], i, |events|)
  }

  /** One slot of n. */
  function HandleEvent(p: Poll, e: Event, i: nat, n: nat): (q: Poll)
    requires i < n <= |p.fds| && p.list != []
    ensures n <= |q.fds|
    ensures |q.list| >= |p.list| - 1
  {
    if Ends(e, i) then Close(p, i)
    else if i == 0 && e.Readable? then Accept(p, n, e.newFd, e.data)
    else p
  }

  /** The slots from i on, in order. */
  function HandleFrom(p: Poll, events: seq<Event>, i: nat): (q: Poll)
    requires i <= |events| <= |p.fds| && |p.list| >= |events| - i
    ensures |events| <= |q.fds|
    decreases |events| - i
  {
    if i == |events| then p else HandleFrom(HandleSlot(p, events, i), events, i + 1)
  }

  function Handled(p: Poll, events: seq<Event>): Poll
    requires WellFormed(p, events)
  {
    HandleFrom(p, events, 0)
  }

  // ----- compaction at the end of the round -----

  /** compress, called with the old and the new number of connections, returns. */
  predicate Returns(q: Poll, n: nat) {
    && n <= |q.fds| && |q.list| <= |q.fds|
    && (n == |q.list| || Enough(q.fds, n, |q.list|))
  }

  function Compressed(q: Poll, n: nat): Poll
    requires Returns(q, n)
  {
    if n == |q.list| then q else Poll(q.list, Settle(q.fds, n, |q.list|))
  }

  // ----- when the two structures stay aligned -----

  function CloseCount(events: seq<Event>, i: nat): (k: nat)
    requires i <= |events|
    ensures k <= |events| - i
    decreases |events| - i
  {
    if i == |events| then 0 else (if Closes(events, i) then 1 else 0) + CloseCount(events, i + 1)
  }

  /** Once two slots have closed, every later slot closes. */
  ghost predicate ClosesToTheEnd(events: seq<Event>) {
    forall a, b, c :: 0 <= a < b < c < |events| && Closes(events, a) && Closes(events, b) ==> Closes(events, c)
  }

  /** The rounds the manager copes with. */
  ghost predicate Benign(events: seq<Event>) {
    if Joins(events) then CloseCount(events, 0) == 0 else ClosesToTheEnd(events)
  }

  /** The descriptors of the slots from i on that do not close. */
  function Kept(list: seq<int>, events: seq<Event>, i: nat): (r: seq<int>)
    requires i <= |events| == |list|
    ensures |r| == |events| - i - CloseCount(events, i)
    ensures forall x :: x in r ==> x in list[i..]
    decreases |events| - i
  {
    if i == |events| then []
    else if Closes(events, i) then Kept(list, events, i + 1)
    else [list[i]] + Kept(list, events, i + 1)
  }

  /** What happens to the list from slot i on: only closes matter. */
  function Shrunk(list: seq<int>, events: seq<Event>, i: nat): (r: seq<int>)
    requires i <= |events| && |list| >= CloseCount(events, i)
    ensures |r| == |list| - CloseCount(events, i)
    decreases |events| - i
  {
    if i == |events| then list
    else if Closes(events, i) then Shrunk(RemoveAt(list, Clamp(i, |list|)), events, i + 1)
    else Shrunk(list, events, i + 1)
  }

  lemma {:induction false} HandledFrom(p: Poll, events: seq<Event>, i: nat)
    requires 0 < i <= |events| <= |p.fds| && |p.list| >= |events| - i
    ensures HandleFrom(p, events, i).list == Shrunk(p.list, events, i)
    ensures |HandleFrom(p, events, i).fds| == |p.fds|
    ensures forall j :: 0 <= j < |p.fds| ==>
              HandleFrom(p, events, i).fds[j] == if i <= j < |events| && Closes(events, j) then REMOVE_FD else p.fds[j]
    decreases |events| - i
  {
    if i < |events| {
      HandledFrom(HandleSlot(p, events, i), events, i + 1);
    }
  }

  /** Removals at or beyond b leave the first b connections alone, as long as that
      many are left. */
  lemma {:induction false} PrefixSurvives(list: seq<int>, events: seq<Event>, i: nat, b: nat)
    requires i <= |events| && |list| - CloseCount(events, i) >= b
    requires forall j :: i <= j < |events| && Closes(events, j) ==> b <= j
    ensures Shrunk(list, events, i)[..b] == list[..b]
    decreases |events| - i
  {
    if i < |events| {
      if Closes(events, i) {
        var k := Clamp(i, |list|);
        assert RemoveAt(list, k)[..b] == list[..b];
        PrefixSurvives(RemoveAt(list, k), events, i + 1, b);
      } else {
        PrefixSurvives(list, events, i + 1, b);
      }
    }
  }

  lemma {:induction false} KeptDescriptors(list: seq<int>, events: seq<Event>, i: nat, s: seq<int>)
    requires i <= |events| == |list| && |s| == |events| - i
    requires REMOVE_FD !in list
    requires forall j :: 0 <= j < |s| ==> s[j] == if Closes(events, i + j) then REMOVE_FD else list[i + j]
    ensures Descriptors(s) == Kept(list, events, i)
    decreases |s|
  {
    if |s| > 0 {
      KeptDescriptors(list, events, i + 1, s[1..]);
      assert list[i] in list;
    }
  }

  /** The first slot from i on that closes, the number of slots if none does. */
  function NextClose(events: seq<Event>, i: nat): (a: nat)
    requires i <= |events|
    ensures i <= a <= |events|
    ensures a < |events| ==> Closes(events, a)
    ensures forall j :: i <= j < a ==> !Closes(events, j)
    decreases |events| - i
  {
    if i == |events| || Closes(events, i) then i else NextClose(events, i + 1)
  }

  lemma {:induction false} SkipOpen(list: seq<int>, l: seq<int>, events: seq<Event>, i: nat, j: nat)
    requires i <= j <= |events| == |list|
    requires forall k :: i <= k < j ==> !Closes(events, k)
    requires |l| >= CloseCount(events, i)
    ensures CloseCount(events, i) == CloseCount(events, j)
    ensures Shrunk(l, events, i) == Shrunk(l, events, j)
    ensures Kept(list, events, i) == list[i..j] + Kept(list, events, j)
    decreases j - i
  {
    if i < j {
      SkipOpen(list, l, events, i + 1, j);
      Slice(list, i, j, Kept(list, events, j));
    }
  }

  lemma Slice(list: seq<int>, i: nat, j: nat, rest: seq<int>)
    requires i < j <= |list|
    ensures list[i..j] + rest == [list[i]] + (list[i + 1..j] + rest)
  {
    assert list[i..j] == [list[i]] + list[i + 1..j];
  }

  lemma {:induction false} AllClose(list: seq<int>, events: seq<Event>, i: nat)
    requires i <= |events| == |list|
    requires forall k :: i <= k < |events| ==> Closes(events, k)
    ensures CloseCount(events, i) == |events| - i
    ensures Kept(list, events, i) == []
    decreases |events| - i
  {
    if i < |events| {
      AllClose(list, events, i + 1);
    }
  }

  lemma {:induction false} SomeOpen(events: seq<Event>, i: nat, c: nat)
    requires i <= c < |events| && !Closes(events, c)
    ensures CloseCount(events, i) < |events| - i
    decreases c - i
  {
    if i < c {
      SomeOpen(events, i + 1, c);
    }
  }

  lemma {:induction false} KeptIsOpen(list: seq<int>, events: seq<Event>, i: nat, b: nat)
    requires i <= |events| == |list| && b < |events| && Distinct(list) && Closes(events, b)
    ensures list[b] !in Kept(list, events, i)
    decreases |events| - i
  {
    if i < |events| {
      KeptIsOpen(list, events, i + 1, b);
      assert i != b ==> list[i] != list[b];
    }
  }

  lemma {:induction false} FirstRemoved(list: seq<int>, events: seq<Event>, a: nat)
    requires |events| == |list| && a == NextClose(events, 0) < |events|
    ensures CloseCount(events, 0) == 1 + CloseCount(events, a + 1)
    ensures Shrunk(list, events, 0) == Shrunk(RemoveAt(list, a), events, a + 1)
    ensures Kept(list, events, 0) == list[..a] + Kept(list, events, a + 1)
  {
    SkipOpen(list, list, events, 0, a);
  }

  lemma RemovedPrefix(list: seq<int>, a: nat, b: nat)
    requires a < b <= |list|
    ensures RemoveAt(list, a)[..b - 1] == list[..a] + list[a + 1..b]
  {
  }

  /** Closing to the end: the list loses exactly the connections that closed. */
  lemma {:induction false} TopBlockKept(list: seq<int>, events: seq<Event>)
    requires |events| == |list| && ClosesToTheEnd(events)
    ensures Shrunk(list, events, 0) == Kept(list, events, 0)
  {
    var a := NextClose(events, 0);
    if a == |events| {
      SkipOpen(list, list, events, 0, a);
    } else {
      FirstRemoved(list, events, a);
      TopBlock(list, RemoveAt(list, a), events, a);
      RemovedPrefix(list, a, NextClose(events, a + 1));
    }
  }

  lemma {:induction false} AllCloseFrom(events: seq<Event>, a: nat, b: nat)
    requires ClosesToTheEnd(events) && a < b <= |events| && Closes(events, a)
    requires b < |events| ==> Closes(events, b)
    ensures forall k :: b <= k < |events| ==> Closes(events, k)
  {
    forall k | b <= k < |events| ensures Closes(events, k) {
      assert b < k ==> Closes(events, a) && Closes(events, b);
    }
  }

  lemma {:induction false} TopBlock(list: seq<int>, l: seq<int>, events: seq<Event>, a: nat)
    requires |events| == |list| == |l| + 1 && ClosesToTheEnd(events)
    requires a == NextClose(events, 0) < |events|
    ensures var b := NextClose(events, a + 1);
      && Shrunk(l, events, a + 1) == l[..b - 1]
      && Kept(list, events, a + 1) == list[a + 1..b]
  {
    var b := NextClose(events, a + 1);
    AllCloseFrom(events, a, b);
    AllClose(list, events, b);
    OpenCount(events, a + 1, b);
    PrefixSurvives(l, events, b, b - 1);
    SkipOpen(list, l, events, a + 1, b);
  }

  /** Otherwise the second close removes the connection of the next slot, and the
      one that closed stays in the list. */
  lemma {:induction false} WrongOneRemoved(list: seq<int>, events: seq<Event>)
    returns (b: nat)
    requires |events| == |list| && Distinct(list) && !ClosesToTheEnd(events)
    ensures b < |events| && Closes(events, b)
    ensures list[b] in Shrunk(list, events, 0) && list[b] !in Kept(list, events, 0)
  {
    var a, b', c :| 0 <= a < b' < c < |events| && Closes(events, a) && Closes(events, b') && !Closes(events, c);
    FirstTwoCloses(events, a, b');
    b := NextClose(events, NextClose(events, 0) + 1);
    SecondInList(list, events, NextClose(events, 0), b, c);
  }

  lemma {:induction false} FirstTwoCloses(events: seq<Event>, a: nat, b: nat)
    requires a < b < |events| && Closes(events, a) && Closes(events, b)
    ensures NextClose(events, 0) <= a && NextClose(events, NextClose(events, 0) + 1) <= b
  {
  }

  lemma {:induction false} SecondInList(list: seq<int>, events: seq<Event>, a: nat, b: nat, c: nat)
    requires |events| == |list| && Distinct(list) && b < c < |events| && !Closes(events, c)
    requires a == NextClose(events, 0) < b && b == NextClose(events, a + 1)
    ensures list[b] in Shrunk(list, events, 0) && list[b] !in Kept(list, events, 0)
  {
    KeptIsOpen(list, events, 0, b);
    SecondListed(list, events, a, b, c);
  }

  lemma {:induction false} SecondListed(list: seq<int>, events: seq<Event>, a: nat, b: nat, c: nat)
    requires |events| == |list| && b < c < |events| && !Closes(events, c)
    requires a == NextClose(events, 0) < b && b == NextClose(events, a + 1)
    ensures list[b] in Shrunk(list, events, 0)
  {
    FirstRemoved(list, events, a);
    SecondStays(list, RemoveAt(list, a), events, a, b, c);
  }

  lemma {:induction false} SecondStays(list: seq<int>, l: seq<int>, events: seq<Event>, a: nat, b: nat, c: nat)
    requires |events| == |list| == |l| + 1 && a < b < c < |events| && !Closes(events, c)
    requires b == NextClose(events, a + 1) && l[b - 1] == list[b]
    ensures |l| >= CloseCount(events, a + 1) && list[b] in Shrunk(l, events, a + 1)
  {
    SomeOpen(events, b + 1, c);
    OpenCount(events, a + 1, b);
    SkipOpen(list, l, events, a + 1, b);
    FrontStays(l, events, b);
  }

  /** A close at b leaves the connections before b alone if enough remain. */
  lemma {:induction false} FrontStays(l: seq<int>, events: seq<Event>, b: nat)
    requires 0 < b < |events| && Closes(events, b) && |l| >= b + 1 + CloseCount(events, b + 1)
    ensures l[b - 1] in Shrunk(l, events, b)
  {
    var l' := RemoveAt(l, b);
    PrefixSurvives(l', events, b + 1, b);
    SamePrefix(Shrunk(l', events, b + 1), l', b);
    assert Shrunk(l, events, b) == Shrunk(l', events, b + 1);
  }

  lemma SamePrefix(s: seq<int>, t: seq<int>, b: nat)
    requires 0 < b <= |s| && b <= |t| && s[..b] == t[..b]
    ensures s[b - 1] == t[b - 1]
  {
    assert s[b - 1] == s[..b][b - 1];
  }

  lemma {:induction false} OpenCount(events: seq<Event>, i: nat, b: nat)
    requires i <= b <= |events| && forall k :: i <= k < b ==> !Closes(events, k)
    ensures CloseCount(events, i) == CloseCount(events, b)
    decreases b - i
  {
    if i < b {
      OpenCount(events, i + 1, b);
    }
  }

  lemma {:induction false} NoCloses(list: seq<int>, l: seq<int>, events: seq<Event>, i: nat)
    requires i <= |events| == |list| && CloseCount(events, i) == 0
    ensures forall j :: i <= j < |events| ==> !Closes(events, j)
    ensures Shrunk(l, events, i) == l && Kept(list, events, i) == list[i..]
    decreases |events| - i
  {
    if i < |events| {
      NoCloses(list, l, events, i + 1);
      assert list[i..] == [list[i]] + list[i + 1..];
    }
  }

  lemma {:induction false} KeptDistinct(list: seq<int>, events: seq<Event>, i: nat)
    requires i <= |events| == |list| && Distinct(list) && REMOVE_FD !in list
    ensures Distinct(Kept(list, events, i)) && REMOVE_FD !in Kept(list, events, i)
    decreases |events| - i
  {
    if i < |events| {
      KeptDistinct(list, events, i + 1);
      var rest := Kept(list, events, i + 1);
      assert list[i] !in list[i + 1..] && list[i] in list;
    }
  }

  /** The state after the slots, in terms of what closed. */
  lemma {:induction false} HandledShape(p: Poll, events: seq<Event>)
    requires Aligned(p) && WellFormed(p, events)
    ensures var q, n := Handled(p, events), |events|;
      && q.list == Shrunk(if Joins(events) then p.list + [events[0].newFd] else p.list, events, 0)
      && Descriptors(q.fds[..n]) == Kept(p.list, events, 0)
      && (forall j :: 0 <= j < n ==> q.fds[j] == if Closes(events, j) then REMOVE_FD else p.list[j])
      && (Joins(events) ==> |q.fds| == n + 1 && q.fds[n] == events[0].newFd)
  {
    var q, n := Handled(p, events), |events|;
    HandledFrom(HandleSlot(p, events, 0), events, 1);
    KeptDescriptors(p.list, events, 0, q.fds[..n]);
    assert Joins(events) ==> InsertAt(p.list, n, events[0].newFd) == p.list + [events[0].newFd];
  }

  /** compress returns at the end of a round unless a client joined while two or
      more connections closed; then it calls itself for ever. */
  lemma {:induction false} CompressReturnsIff(p: Poll, events: seq<Event>)
    requires Aligned(p) && WellFormed(p, events)
    ensures Returns(Handled(p, events), |events|) <==> !(Joins(events) && CloseCount(events, 0) >= 2)
  {
    var q, n := Handled(p, events), |events|;
    HandledShape(p, events);
    if Joins(events) && CloseCount(events, 0) == 0 {
      assert q.fds[n..] == [events[0].newFd];
    }
  }

  /** After the round, slot i watches connection i again exactly when the round
      was benign: no close beside a new client, and otherwise no open slot after
      two that closed. */
  lemma {:induction false} AlignedIffBenign(p: Poll, events: seq<Event>)
    requires Aligned(p) && WellFormed(p, events)
    requires Returns(Handled(p, events), |events|)
    ensures Aligned(Compressed(Handled(p, events), |events|)) <==> Benign(events)
  {
    var q, n, k := Handled(p, events), |events|, CloseCount(events, 0);
    HandledShape(p, events);
    CompressReturnsIff(p, events);
    if Joins(events) {
      JoinOutcome(p, events);
    } else {
      LeaveOutcome(p, events);
    }
  }

  lemma JoinOutcome(p: Poll, events: seq<Event>)
    requires Aligned(p) && WellFormed(p, events) && Joins(events)
    requires Returns(Handled(p, events), |events|)
    ensures Aligned(Compressed(Handled(p, events), |events|)) <==> CloseCount(events, 0) == 0
  {
    if CloseCount(events, 0) == 0 {
      JoinAlone(p, events);
    } else {
      JoinBesideClose(p, events);
    }
  }

  lemma {:induction false} JoinShape(p: Poll, events: seq<Event>)
    requires Aligned(p) && WellFormed(p, events) && Joins(events) && CloseCount(events, 0) == 0
    ensures Handled(p, events) == Poll(p.list + [events[0].newFd], p.list + [events[0].newFd])
  {
    HandledShape(p, events);
    NoCloses(p.list, p.list + [events[0].newFd], events, 0);
  }

  lemma {:induction false} JoinAlone(p: Poll, events: seq<Event>)
    requires Aligned(p) && WellFormed(p, events) && Joins(events) && CloseCount(events, 0) == 0
    requires Returns(Handled(p, events), |events|)
    ensures Aligned(Compressed(Handled(p, events), |events|))
    ensures Compressed(Handled(p, events), |events|)
         == Poll(p.list + [events[0].newFd], p.list + [events[0].newFd])
  {
    var list := p.list + [events[0].newFd];
    JoinShape(p, events);
    assert list[..|events|] == p.list;
    SettleWhole(list, |events|);
    AppendDistinct(p.list, events[0].newFd);
    AlignedMeans(Poll(list, list), list);
  }

  lemma AppendDistinct(s: seq<int>, x: nat)
    requires Distinct(s) && REMOVE_FD !in s && x !in s
    ensures Distinct(s + [x]) && REMOVE_FD !in s + [x]
  {
    InsertDistinct(s, |s|, x);
    assert InsertAt(s, |s|, x) == s + [x];
  }

  lemma AlignedMeans(r: Poll, kept: seq<int>)
    requires |r.list| == |kept| <= |r.fds| && r.fds[..|kept|] == kept
    requires Distinct(kept) && REMOVE_FD !in kept
    ensures Aligned(r) <==> r.list == kept
  {
    assert forall i :: 0 <= i < |kept| ==> r.fds[i] == r.fds[..|kept|][i];
  }

  lemma {:induction false} JoinBesideClose(p: Poll, events: seq<Event>)
    requires Aligned(p) && WellFormed(p, events) && Joins(events) && CloseCount(events, 0) > 0
    requires Returns(Handled(p, events), |events|)
    ensures !Aligned(Compressed(Handled(p, events), |events|))
  {
    var q, n := Handled(p, events), |events|;
    HandledShape(p, events);
    CompressReturnsIff(p, events);
    var a := NextClose(events, 0);
    SkipOpen(p.list, p.list, events, 0, a);
    assert q.fds[a] == REMOVE_FD && |q.list| == n;
  }

  /** Compacting a front without holes changes nothing. */
  lemma SettleWhole(s: seq<int>, n: nat)
    requires n < |s| && REMOVE_FD !in s[..n] && Enough(s, n, n + 1)
    ensures Settle(s, n, n + 1) == s
  {
    var r := Settle(s, n, n + 1);
    WholeFront(s[..n], r[..n]);
    Halves(s, r, n);
  }

  lemma WholeFront(s: seq<int>, r: seq<int>)
    requires REMOVE_FD !in s && |r| == |s| && Descriptors(r) == Descriptors(s)
    ensures r == s
  {
    SettledPrefix(s, |s|);
    AllSettled(r);
    assert s[..|s|] == s && Descriptors(s)[..|s|] == Descriptors(s);
  }

  lemma Halves(s: seq<int>, r: seq<int>, n: nat)
    requires |s| == |r| >= n && s[..n] == r[..n] && s[n..] == r[n..]
    ensures s == r
  {
    assert s == s[..n] + s[n..] && r == r[..n] + r[n..];
  }

  lemma {:induction false} LeaveOutcome(p: Poll, events: seq<Event>)
    requires Aligned(p) && WellFormed(p, events) && !Joins(events)
    requires Returns(Handled(p, events), |events|)
    ensures Aligned(Compressed(Handled(p, events), |events|)) <==> ClosesToTheEnd(events)
  {
    var q, n := Handled(p, events), |events|;
    HandledShape(p, events);
    var kept := Kept(p.list, events, 0);
    var r := Compressed(q, n);
    assert r.fds[..|kept|] == kept by {
      if CloseCount(events, 0) == 0 {
        NoCloses(p.list, p.list, events, 0);
      } else {
        SettleCompacts(q.fds, n, |q.list|);
      }
    }
    KeptDistinct(p.list, events, 0);
    AlignedMeans(r, kept);
    if ClosesToTheEnd(events) {
      TopBlockKept(p.list, events);
    } else {
      var _ := WrongOneRemoved(p.list, events);
    }
  }

  /** Who is left after a benign round, in the terms of what became of the slots: a
      connection stays unless its slot was a hangup or a failed read, and a new client
      joins with its first reading. */
  lemma {:induction false} WhoStays(p: Poll, events: seq<Event>)
    requires Aligned(p) && WellFormed(p, events) && Benign(events)
    ensures Returns(Handled(p, events), |events|)
    ensures var q := Compressed(Handled(p, events), |events|);
      && (forall i :: 0 <= i < |events| ==>
            (p.list[i] in q.list <==> !events[i].Hangup? && !(i > 0 && events[i].Readable? && events[i].data.None?)))
      && (forall x :: x in q.list ==>
            x in p.list || (events[0].Readable? && events[0].data.Some? && x == events[0].newFd))
      && (events[0].Readable? && events[0].data.Some? ==> events[0].newFd in q.list)
  {
    CompressReturnsIff(p, events);
    if Joins(events) {
      JoinAlone(p, events);
      NoCloses(p.list, p.list, events, 0);
      forall i | 0 <= i < |events|
        ensures p.list[i] in p.list + [events[0].newFd] && !events[i].Hangup?
                && !(i > 0 && events[i].Readable? && events[i].data.None?)
      {
        assert !Closes(events, i);
      }
    } else {
      LeavingStays(p, events);
    }
  }

  lemma {:induction false} LeavingStays(p: Poll, events: seq<Event>)
    requires Aligned(p) && WellFormed(p, events) && !Joins(events) && ClosesToTheEnd(events)
    ensures var list := Handled(p, events).list;
      && (forall i :: 0 <= i < |events| ==> (p.list[i] in list <==> !Closes(events, i)))
      && forall x :: x in list ==> x in p.list
  {
    HandledShape(p, events);
    TopBlockKept(p.list, events);
    forall i | 0 <= i < |events| ensures p.list[i] in Kept(p.list, events, 0) <==> !Closes(events, i) {
      if Closes(events, i) { KeptIsOpen(p.list, events, 0, i); } else { OpenIsKept(p.list, events, 0, i); }
    }
  }

  lemma {:induction false} OpenIsKept(list: seq<int>, events: seq<Event>, i: nat, b: nat)
    requires i <= b < |events| == |list| && !Closes(events, b)
    ensures list[b] in Kept(list, events, i)
    decreases |events| - i
  {
    if i < b {
      OpenIsKept(list, events, i + 1, b);
    }
  }

  // ----- whole runs -----

  /** The state init_server leaves: the server alone. */
  function Start(serverFd: nat): (p: Poll)
    ensures Aligned(p)
  {
    Poll([serverFd], [serverFd])
  }

  ghost predicate Round(p: Poll, events: seq<Event>, q: Poll) {
    && WellFormed(p, events)
    && Returns(Handled(p, events), |events|)
    && q == Compressed(Handled(p, events), |events|)
  }

  /** Rounds that all came to an end. */
  ghost predicate Chained(rounds: seq<seq<Event>>, states: seq<Poll>) {
    && |states| == |rounds| + 1
    && forall k :: 0 <= k < |rounds| ==> Round(states[k], rounds[k], states[k + 1])
  }

  ghost predicate Run(serverFd: nat, rounds: seq<seq<Event>>, states: seq<Poll>) {
    Chained(rounds, states) && states[0] == Start(serverFd)
  }

  /** The array and the list stay aligned over a run exactly as long as every
      round is benign. */
  lemma {:induction false} AlignedRun(serverFd: nat, rounds: seq<seq<Event>>, states: seq<Poll>, m: nat)
    requires Run(serverFd, rounds, states) && m < |states|
    ensures (forall k :: 0 <= k <= m ==> Aligned(states[k])) <==> (forall k :: 0 <= k < m ==> Benign(rounds[k]))
  {
    if m > 0 {
      AlignedRun(serverFd, rounds, states, m - 1);
      if forall k :: 0 <= k < m ==> Aligned(states[k]) {
        assert Round(states[m - 1], rounds[m - 1], states[m]);
        AlignedIffBenign(states[m - 1], rounds[m - 1]);
      }
    }
  }

  /** The server keeps index 0 in the list and slot 0 in the array, unless poll
      reports it closed. */
  lemma {:induction false} ServerStays(serverFd: nat, rounds: seq<seq<Event>>, states: seq<Poll>, m: nat)
    requires Run(serverFd, rounds, states) && m < |states|
    requires forall k :: 0 <= k < m ==> Benign(rounds[k])
    requires forall k :: 0 <= k < m ==> rounds[k] != [] && !rounds[k][0].Hangup?
    ensures Aligned(states[m]) && states[m].list != []
    ensures states[m].list[0] == states[m].fds[0] == serverFd
  {
    AlignedRun(serverFd, rounds, states, m);
    if m > 0 {
      ServerStays(serverFd, rounds, states, m - 1);
      var p, events := states[m - 1], rounds[m - 1];
      assert Round(p, events, states[m]);
      HandledShape(p, events);
      if Joins(events) {
        NoCloses(p.list, p.list + [events[0].newFd], events, 0);
      } else {
        TopBlockKept(p.list, events);
        SkipOpen(p.list, p.list, events, 0, 1);
      }
    }
  }
}
