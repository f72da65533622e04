/** What the pointer list does to the sequence it stands for. */
module ListSpec {
  /** The index an insertion request is clamped to: anywhere from 0 to n. */
  function InsertIndex(index: int, n: nat): (k: nat)
    ensures k <= n
    ensures index <= 0 ==> k == 0
    ensures 0 <= index <= n ==> k == index
    ensures index >= n ==> k == n
  {
    if index <= 0 then 0 else if index >= n then n else index
  }

  /** The index a lookup or removal is clamped to, in a list of n > 0 nodes. */
  function Clamp(index: int, n: nat): (k: nat)
    requires n > 0
    ensures k < n
    ensures index <= 0 ==> k == 0
    ensures 0 <= index < n ==> k == index
    ensures index >= n - 1 ==> k == n - 1
  {
    if index <= 0 then 0 else if index >= n then n - 1 else index
  }

  function InsertAt<T>(s: seq<T>, k: nat, x: T): (r: seq<T>)
    requires k <= |s|
    ensures |r| == |s| + 1
    ensures forall i :: 0 <= i < |r| ==> r[i] == if i < k then s[i] else if i == k then x else s[i - 1]
  {
    s[..k] + [x] + s[k..]
  }

  function RemoveAt<T>(s: seq<T>, k: nat): (r: seq<T>)
    requires k < |s|
    ensures |r| == |s| - 1
    ensures forall i :: 0 <= i < |r| ==> r[i] == if i < k then s[i] else s[i + 1]
  {
    s[..k] + s[k + 1..]
  }

  ghost predicate Distinct<T>(s: seq<T>) {
    forall i, j :: 0 <= i < j < |s| ==> s[i] != s[j]
  }

  /** The index of x, -1 if it is not there. */
  function IndexOf<T(==)>(s: seq<T>, x: T): (k: int)
    ensures -1 <= k < |s|
    ensures k >= 0 ==> s[k] == x && x !in s[..k]
    ensures k == -1 <==> x !in s
  {
    if |s| == 0 then -1
    else if s[0] == x then 0
    else
      var k := IndexOf(s[1..], x);
      if k == -1 then -1 else k + 1
  }

  lemma IndexOfElement<T>(s: seq<T>, k: nat)
    requires Distinct(s) && k < |s|
    ensures IndexOf(s, s[k]) == k
  {
    assert s[k] in s;
  }

  /** References survive an insertion: a node's index shifts by one from the
      insertion point on, and is unchanged before it. */
  lemma {:induction false} InsertShifts<T>(s: seq<T>, k: nat, x: T, y: T)
    requires Distinct(s) && k <= |s| && x !in s && y in s
    ensures Distinct(InsertAt(s, k, x))
    ensures IndexOf(InsertAt(s, k, x), y) == IndexOf(s, y) + if IndexOf(s, y) < k then 0 else 1
  {
    InsertDistinct(s, k, x);
    var i := IndexOf(s, y);
    FoundAt(InsertAt(s, k, x), if i < k then i else i + 1, y);
  }

  lemma {:induction false} FoundAt<T>(s: seq<T>, k: nat, y: T)
    requires Distinct(s) && k < |s| && s[k] == y
    ensures IndexOf(s, y) == k
  {
    IndexOfElement(s, k);
  }

  lemma InsertDistinct<T>(s: seq<T>, k: nat, x: T)
    requires Distinct(s) && k <= |s| && x !in s
    ensures Distinct(InsertAt(s, k, x))
  {
    var r := InsertAt(s, k, x);
    forall i, j | 0 <= i < j < |r| ensures r[i] != r[j] {
      if j == k {
        assert r[i] == s[i] && s[i] in s;
      } else if i == k {
        assert r[j] == s[j - 1] && s[j - 1] in s;
      }
    }
  }

  lemma RemoveDistinct<T>(s: seq<T>, k: nat)
    requires Distinct(s) && k < |s|
    ensures Distinct(RemoveAt(s, k)) && s[k] !in RemoveAt(s, k)
  {
    var r := RemoveAt(s, k);
    forall i, j | 0 <= i < j < |r| ensures r[i] != r[j] {
    }
  }

  lemma {:induction false} RemoveShifts<T>(s: seq<T>, k: nat, y: T)
    requires Distinct(s) && k < |s| && y in s && y != s[k]
    ensures Distinct(RemoveAt(s, k))
    ensures IndexOf(RemoveAt(s, k), y) == IndexOf(s, y) - if IndexOf(s, y) < k then 0 else 1
    ensures IndexOf(RemoveAt(s, k), s[k]) == -1
  {
    RemoveDistinct(s, k);
    var i := IndexOf(s, y);
    FoundAt(RemoveAt(s, k), if i < k then i else i - 1, y);
    assert s[k] !in RemoveAt(s, k);
  }

  lemma InsertThenRemove<T>(s: seq<T>, k: nat, x: T)
    requires k <= |s|
    ensures RemoveAt(InsertAt(s, k, x), k) == s
  {
  }

  /** What inserting at a null reference does: the element goes before the last
      one, and nowhere in an empty list. */
  function InsertBeforeLast<T>(s: seq<T>, x: T): seq<T> {
    if |s| == 0 then s else InsertAt(s, |s| - 1, x)
  }

  /** The header promises that it is appended; the two agree exactly when there is
      a last element and it equals the new one. */
  lemma NullInsertAppendsIff<T>(s: seq<T>, x: T)
    ensures InsertBeforeLast(s, x) == s + [x] <==> |s| > 0 && s[|s| - 1] == x
  {
    if |s| > 0 {
      assert InsertAt(s, |s| - 1, x)[|s|] == s[|s| - 1];
    }
  }

  lemma InsertMultiset<T>(s: seq<T>, k: nat, x: T)
    requires k <= |s|
    ensures multiset(InsertAt(s, k, x)) == multiset(s) + multiset{x}
  {
    assert s == s[..k] + s[k..];
  }

  // ----- sorted lists -----

  /** The comparison function is a total preorder: its sign is antisymmetric
      and "not greater" is transitive. */
  ghost predicate TotalPreorder<T(!new)>(compare: (T, T) -> int) {
    && SignAntisymmetric(compare)
    && forall x, y, z :: compare(x, y) <= 0 && compare(y, z) <= 0 ==> compare(x, z) <= 0
  }

  ghost predicate SignAntisymmetric<T(!new)>(compare: (T, T) -> int) {
    forall x, y :: compare(x, y) < 0 <==> compare(y, x) > 0
  }

  ghost predicate Sorted<T>(s: seq<T>, compare: (T, T) -> int) {
    forall i, j :: 0 <= i < j < |s| ==> compare(s[i], s[j]) <= 0
  }

  /** The first position whose element is not less than x. */
  function SortedIndex<T>(s: seq<T>, x: T, compare: (T, T) -> int): (k: nat)
    ensures k <= |s|
    ensures forall i :: 0 <= i < k ==> compare(x, s[i]) > 0
    ensures k < |s| ==> compare(x, s[k]) <= 0
  {
    if |s| == 0 || compare(x, s[0]) <= 0 then 0 else 1 + SortedIndex(s[1..], x, compare)
  }

  /** The first position whose element compares equal to x, -1 if there is none. */
  function EqualIndex<T>(s: seq<T>, x: T, compare: (T, T) -> int): (k: int)
    ensures -1 <= k < |s|
    ensures k >= 0 ==> compare(s[k], x) == 0
    ensures forall i :: 0 <= i < (if k == -1 then |s| else k) ==> compare(s[i], x) != 0
  {
    if |s| == 0 then -1
    else if compare(s[0], x) == 0 then 0
    else
      var k := EqualIndex(s[1..], x, compare);
      if k == -1 then -1 else k + 1
  }

  lemma SortedInsertStaysSorted<T(!new)>(s: seq<T>, x: T, y: T, compare: (T, T) -> int)
    requires TotalPreorder(compare) && Sorted(s, compare)
    requires forall z :: compare(y, z) == compare(x, z) && compare(z, y) == compare(z, x)
    ensures Sorted(InsertAt(s, SortedIndex(s, x, compare), y), compare)
  {
    var k := SortedIndex(s, x, compare);
    var r := InsertAt(s, k, y);
    forall i, j | 0 <= i < j < |r| ensures compare(r[i], r[j]) <= 0 {
      if i < k <= j {
        assert r[i] == s[i] && compare(x, s[i]) > 0;
        if j == k {
          assert compare(s[i], x) < 0;
        }
      } else if i == k {
        assert r[j] == s[j - 1];
        assert compare(x, s[k]) <= 0;
        assert j - 1 > k ==> compare(s[k], s[j - 1]) <= 0;
      }
    }
  }

  /** The new element stands before every element that compares equal to it. */
  lemma InsertedBeforeEquals<T(!new)>(s: seq<T>, x: T, i: nat, compare: (T, T) -> int)
    requires SignAntisymmetric(compare) && i < |s| && compare(s[i], x) == 0
    ensures SortedIndex(s, x, compare) <= i
  {
    assert !(compare(s[i], x) < 0);
  }

  /** Removing an element just inserted restores the list, sorted or not: y is
      what was stored (x, or a copy of x that compares equal to it). */
  lemma SortedInsertUndone<T(!new)>(s: seq<T>, x: T, y: T, compare: (T, T) -> int)
    requires SignAntisymmetric(compare) && compare(y, x) == 0
    ensures var k := SortedIndex(s, x, compare);
      EqualIndex(InsertAt(s, k, y), x, compare) == k && RemoveAt(InsertAt(s, k, y), k) == s
  {
    var k := SortedIndex(s, x, compare);
    var r := InsertAt(s, k, y);
    forall i | 0 <= i < k ensures compare(r[i], x) != 0 {
      assert r[i] == s[i] && compare(x, s[i]) > 0;
    }
    assert compare(r[k], x) == 0;
    InsertThenRemove(s, k, y);
  }

  /** The same for a list of nodes and the elements they carry. */
  lemma SortedNodeUndone<T(!new), N>(s: seq<T>, nodes: seq<N>, x: T, y: T, node: N, compare: (T, T) -> int)
    requires |nodes| == |s| && SignAntisymmetric(compare) && compare(y, x) == 0
    ensures var k := SortedIndex(s, x, compare);
      && EqualIndex(InsertAt(s, k, y), x, compare) == k
      && RemoveAt(InsertAt(nodes, k, node), k) == nodes
  {
    SortedInsertUndone(s, x, y, compare);
    InsertThenRemove(nodes, SortedIndex(s, x, compare), node);
  }
}
