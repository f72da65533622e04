/** Compaction of the poll array after connections were closed.

    An entry is a descriptor, or REMOVE_FD for a closed connection (a hole). One
    pass deletes holes by shifting, but steps over the entry it has just shifted
    in, so a run of holes needs several passes. */
module Compaction {
  import opened Wrappers

  const REMOVE_FD: int := -1

  /** The descriptors of the entries, in order. */
  function Descriptors(s: seq<int>): (r: seq<int>)
    ensures |r| <= |s| && REMOVE_FD !in r
  {
    if |s| == 0 then []
    else if s[0] == REMOVE_FD then Descriptors(s[1..])
    else [s[0]] + Descriptors(s[1..])
  }

  /** The number of holes just before each descriptor. */
  function Gaps(s: seq<int>): (r: seq<nat>)
    ensures |r| == |Descriptors(s)|
  {
    if |s| == 0 then []
    else if s[0] != REMOVE_FD then [0] + Gaps(s[1..])
    else Widened(Gaps(s[1..]))
  }

  /** One more hole in front of the first descriptor. */
  function Widened(g: seq<nat>): (r: seq<nat>)
    ensures |r| == |g|
  {
    if |g| == 0 then [] else g[0 := g[0] + 1]
  }

  function Holes(n: nat): (r: seq<int>)
    ensures |r| == n && forall i :: 0 <= i < n ==> r[i] == REMOVE_FD
  {
    seq(n, _ => REMOVE_FD)
  }

  /** What compaction is for: the descriptors in front, holes behind. */
  function Packed(s: seq<int>): (r: seq<int>)
    ensures |r| == |s|
  {
    Descriptors(s) + Holes(|s| - |Descriptors(s)|)
  }

  /** One pass over the entries: a hole is deleted, the rest shifted down, and
      the entry shifted into its place is kept unexamined. */
  function Pass(s: seq<int>): (r: seq<int>)
    ensures |r| == |s|
    decreases |s|
  {
    if |s| == 0 then []
    else if s[0] != REMOVE_FD then [s[0]] + Pass(s[1..])
    else if |s| == 1 then s
    else [s[1]] + Pass(s[2..] + [REMOVE_FD])
  }

  function Halved(g: seq<nat>): (r: seq<nat>)
    ensures |r| == |g| && forall i :: 0 <= i < |g| ==> r[i] == g[i] / 2
  {
    seq(|g|, i requires 0 <= i < |g| => g[i] / 2)
  }

  lemma {:induction false} TrailingHole(s: seq<int>)
    ensures Descriptors(s + [REMOVE_FD]) == Descriptors(s)
    ensures Gaps(s + [REMOVE_FD]) == Gaps(s)
  {
    if |s| > 0 {
      TrailingHole(s[1..]);
      assert (s + [REMOVE_FD])[1..] == s[1..] + [REMOVE_FD];
    }
  }

  /** One pass keeps the descriptors and their order, and halves, rounding down,
      every run of holes that has a descriptor after it. */
  lemma {:induction false} PassHalvesGaps(s: seq<int>)
    ensures Descriptors(Pass(s)) == Descriptors(s)
    ensures Gaps(Pass(s)) == Halved(Gaps(s))
    decreases |s|
  {
    if |s| == 0 {
    } else if s[0] != REMOVE_FD {
      PassHalvesGaps(s[1..]);
      assert Pass(s)[1..] == Pass(s[1..]);
      assert Halved([0] + Gaps(s[1..])) == [0] + Halved(Gaps(s[1..]));
    } else if |s| > 1 {
      PassHalvesGaps(s[2..] + [REMOVE_FD]);
      LeadingHole(s);
    }
  }

  lemma LeadingHole(s: seq<int>)
    requires |s| > 1 && s[0] == REMOVE_FD
    requires Descriptors(Pass(s[2..] + [REMOVE_FD])) == Descriptors(s[2..] + [REMOVE_FD])
    requires Gaps(Pass(s[2..] + [REMOVE_FD])) == Halved(Gaps(s[2..] + [REMOVE_FD]))
    ensures Descriptors(Pass(s)) == Descriptors(s)
    ensures Gaps(Pass(s)) == Halved(Gaps(s))
  {
    var g := Gaps(s[2..]);
    TrailingHole(s[2..]);
    HalvedWidened(g);
    assert Pass(s)[1..] == Pass(s[2..] + [REMOVE_FD]);
    assert s[1..][0] == s[1] && s[1..][1..] == s[2..];
  }

  lemma HalvedWidened(g: seq<nat>)
    ensures Halved(Widened(Widened(g))) == Widened(Halved(g))
    ensures Halved(Widened([0] + g)) == [0] + Halved(g)
  {
    assert Widened([0] + g) == [1] + g;
  }

  function Sum(g: seq<nat>): nat {
    if |g| == 0 then 0 else g[0] + Sum(g[1..])
  }

  lemma {:induction false} HalvingDecreases(g: seq<nat>)
    ensures Sum(Halved(g)) <= Sum(g)
    ensures (exists i :: 0 <= i < |g| && g[i] > 0) ==> Sum(Halved(g)) < Sum(g)
  {
    if |g| > 0 {
      HalvingDecreases(g[1..]);
      assert Halved(g)[1..] == Halved(g[1..]);
      if i :| 0 <= i < |g| && g[i] > 0 {
        assert i > 0 ==> g[1..][i - 1] > 0;
      }
    }
  }

  /** Entry k is a hole below the n-th descriptor's final place exactly when some
      earlier run of holes is left. */
  lemma {:induction false} HoleMeansGap(s: seq<int>, k: nat)
    requires k < |s| && s[k] == REMOVE_FD && k < |Descriptors(s)|
    ensures exists i :: 0 <= i < |Gaps(s)| && Gaps(s)[i] > 0
  {
    if s[0] == REMOVE_FD {
      assert Gaps(s)[0] > 0;
    } else {
      HoleMeansGap(s[1..], k - 1);
      var i :| 0 <= i < |Gaps(s[1..])| && Gaps(s[1..])[i] > 0;
      assert Gaps(s)[i + 1] > 0;
    }
  }

  /** No hole in the first n entries. */
  predicate Settled(s: seq<int>, n: nat)
    requires n <= |s|
  {
    forall k :: 0 <= k < n ==> s[k] != REMOVE_FD
  }

  lemma {:induction false} SettledPrefix(s: seq<int>, n: nat)
    requires n <= |s| && Settled(s, n)
    ensures n <= |Descriptors(s)| && s[..n] == Descriptors(s)[..n]
  {
    if n > 0 {
      assert s[1..][..n - 1] == s[..n][1..];
      assert forall k :: 0 <= k < n - 1 ==> s[1..][k] == s[k + 1];
      SettledPrefix(s[1..], n - 1);
    }
  }

  lemma {:induction false} AllSettled(s: seq<int>)
    requires |Descriptors(s)| == |s|
    ensures Descriptors(s) == s
  {
    if |s| > 0 {
      AllSettled(s[1..]);
    }
  }

  lemma {:induction false} SettledIsPacked(s: seq<int>, n: nat)
    requires n <= |s| && Settled(s, n) && |Descriptors(s)| == n
    ensures s == Packed(s)
  {
    if n > 0 {
      assert forall k :: 0 <= k < n - 1 ==> s[1..][k] == s[k + 1];
      SettledIsPacked(s[1..], n - 1);
      assert s == [s[0]] + s[1..];
    } else {
      NoDescriptors(s);
    }
  }

  lemma {:induction false} NoDescriptors(s: seq<int>)
    requires Descriptors(s) == []
    ensures s == Holes(|s|)
  {
    if |s| > 0 {
      NoDescriptors(s[1..]);
      assert s == [s[0]] + s[1..];
    }
  }

  // ----- the recursion of compress over a poll array -----

  /** The state after one pass over the first `oldSize` entries. */
  function PassOver(s: seq<int>, oldSize: nat): (r: seq<int>)
    requires oldSize <= |s|
    ensures |r| == |s| && r[oldSize..] == s[oldSize..]
  {
    Pass(s[..oldSize]) + s[oldSize..]
  }

  /** There are descriptors enough to fill the first `newSize` entries. */
  predicate Enough(s: seq<int>, oldSize: nat, newSize: nat)
    requires oldSize <= |s| && newSize <= |s|
  {
    if newSize <= oldSize then newSize <= |Descriptors(s[..oldSize])|
    else |Descriptors(s[..oldSize])| == oldSize && Settled(s[oldSize..], newSize - oldSize)
  }

  lemma PassKeepsEnough(s: seq<int>, oldSize: nat, newSize: nat)
    requires oldSize <= |s| && newSize <= |s|
    ensures Descriptors(PassOver(s, oldSize)[..oldSize]) == Descriptors(s[..oldSize])
    ensures Gaps(PassOver(s, oldSize)[..oldSize]) == Halved(Gaps(s[..oldSize]))
    ensures Enough(PassOver(s, oldSize), oldSize, newSize) <==> Enough(s, oldSize, newSize)
  {
    assert PassOver(s, oldSize)[..oldSize] == Pass(s[..oldSize]);
    PassHalvesGaps(s[..oldSize]);
  }

  /** With enough descriptors, a hole left below newSize means a run of holes is left. */
  lemma UnsettledGap(s: seq<int>, oldSize: nat, newSize: nat) returns (i: nat)
    requires oldSize <= |s| && newSize <= |s|
    requires Enough(s, oldSize, newSize) && !Settled(s, newSize)
    ensures i < |Gaps(s[..oldSize])| && Gaps(s[..oldSize])[i] > 0
  {
    forall j | oldSize <= j < newSize ensures s[j] != REMOVE_FD {
      assert s[oldSize..][j - oldSize] == s[j];
    }
    var k :| 0 <= k < newSize && s[k] == REMOVE_FD;
    HoleMeansGap(s[..oldSize], k);
    i :| 0 <= i < |Gaps(s[..oldSize])| && Gaps(s[..oldSize])[i] > 0;
  }

  /** A settled front shows that there were enough descriptors. */
  lemma SettledEnough(s: seq<int>, oldSize: nat, newSize: nat)
    requires oldSize <= |s| && newSize <= |s| && Settled(s, newSize)
    ensures Enough(s, oldSize, newSize)
  {
    var a := s[..oldSize];
    if newSize <= oldSize {
      SettledPrefix(a, newSize);
    } else {
      SettledPrefix(a, oldSize);
    }
  }

  /** compress calls itself until the first newSize entries have no hole. */
  function Settle(s: seq<int>, oldSize: nat, newSize: nat): (r: seq<int>)
    requires oldSize <= |s| && newSize <= |s| && Enough(s, oldSize, newSize)
    ensures |r| == |s| && r[oldSize..] == s[oldSize..]
    ensures Settled(r, newSize)
    ensures Descriptors(r[..oldSize]) == Descriptors(s[..oldSize])
    decreases Sum(Gaps(s[..oldSize]))
  {
    var r := PassOver(s, oldSize);
    PassKeepsEnough(s, oldSize, newSize);
    if Settled(r, newSize) then r
    else
      PassProgress(s, oldSize, newSize);
      Settle(r, oldSize, newSize)
  }

  /** The number of activations of compress. */
  function Activations(s: seq<int>, oldSize: nat, newSize: nat): (n: nat)
    requires oldSize <= |s| && newSize <= |s| && Enough(s, oldSize, newSize)
    ensures n > 0
    decreases Sum(Gaps(s[..oldSize]))
  {
    var r := PassOver(s, oldSize);
    PassKeepsEnough(s, oldSize, newSize);
    if Settled(r, newSize) then 1
    else
      PassProgress(s, oldSize, newSize);
      1 + Activations(r, oldSize, newSize)
  }

  lemma PassProgress(s: seq<int>, oldSize: nat, newSize: nat)
    requires oldSize <= |s| && newSize <= |s| && Enough(s, oldSize, newSize)
    requires !Settled(PassOver(s, oldSize), newSize)
    ensures Sum(Gaps(PassOver(s, oldSize)[..oldSize])) < Sum(Gaps(s[..oldSize]))
  {
    PassKeepsEnough(s, oldSize, newSize);
    var i := UnsettledGap(PassOver(s, oldSize), oldSize, newSize);
    assert Gaps(s[..oldSize])[i] > 0;
    HalvingDecreases(Gaps(s[..oldSize]));
  }

  /** With exactly newSize descriptors among the first oldSize entries the result
      is the stable compaction: descriptors in front in their order, holes behind. */
  lemma SettleCompacts(s: seq<int>, oldSize: nat, newSize: nat)
    requires newSize <= oldSize <= |s| && |Descriptors(s[..oldSize])| == newSize
    ensures Settle(s, oldSize, newSize) == Packed(s[..oldSize]) + s[oldSize..]
  {
    var r := Settle(s, oldSize, newSize);
    assert forall k :: 0 <= k < newSize ==> r[..oldSize][k] == r[k];
    SettledIsPacked(r[..oldSize], newSize);
    assert r == r[..oldSize] + r[oldSize..];
  }

  function Pow2(n: nat): (p: nat)
    ensures p > 0
  {
    if n == 0 then 1 else 2 * Pow2(n - 1)
  }

  /** The depth of the recursion is logarithmic: n + 1 activations need a run of at
      least 2^n holes in front of some descriptor. */
  lemma {:induction false} LogarithmicDepth(s: seq<int>, oldSize: nat, newSize: nat) returns (i: nat)
    requires oldSize <= |s| && newSize <= |s| && Enough(s, oldSize, newSize)
    requires Activations(s, oldSize, newSize) > 1
    ensures i < |Gaps(s[..oldSize])|
    ensures Gaps(s[..oldSize])[i] >= Pow2(Activations(s, oldSize, newSize) - 1)
    decreases Sum(Gaps(s[..oldSize]))
  {
    var r := PassOver(s, oldSize);
    PassKeepsEnough(s, oldSize, newSize);
    Unfolded(s, oldSize, newSize);
    if Activations(r, oldSize, newSize) == 1 {
      i := UnsettledGap(r, oldSize, newSize);
    } else {
      i := LogarithmicDepth(r, oldSize, newSize);
    }
    Doubled(Gaps(s[..oldSize])[i], Activations(r, oldSize, newSize));
  }

  lemma {:induction false} Doubled(gap: nat, n: nat)
    requires n > 0 && gap / 2 >= Pow2(n - 1)
    ensures gap >= Pow2(n)
  {
    assert Pow2(n) == 2 * Pow2(n - 1);
  }

  /** The entries after any number of passes. */
  function Passes(s: seq<int>, oldSize: nat, n: nat): (r: seq<int>)
    requires oldSize <= |s|
    ensures |r| == |s|
    decreases n
  {
    if n == 0 then s else Passes(PassOver(s, oldSize), oldSize, n - 1)
  }

  /** Too few descriptors: after every number of passes a hole is left below
      newSize, so compress would call itself for ever. */
  lemma {:induction false} TooFewNeverSettles(s: seq<int>, oldSize: nat, newSize: nat, n: nat)
    requires oldSize <= |s| && newSize <= |s| && !Enough(s, oldSize, newSize)
    ensures !Settled(Passes(s, oldSize, n), newSize)
    decreases n
  {
    if n == 0 {
      if Settled(s, newSize) {
        SettledEnough(s, oldSize, newSize);
      }
    } else {
      PassKeepsEnough(s, oldSize, newSize);
      TooFewNeverSettles(PassOver(s, oldSize), oldSize, newSize, n - 1);
    }
  }

  /** compress returns if and only if the sizes are equal or there are enough
      descriptors: exactly then some number of passes settles the front. */
  lemma {:induction false} SettlesIffEnough(s: seq<int>, oldSize: nat, newSize: nat)
    requires oldSize <= |s| && newSize <= |s|
    ensures Enough(s, oldSize, newSize) <==> exists n: nat :: Settled(Passes(s, oldSize, n), newSize)
  {
    if Enough(s, oldSize, newSize) {
      SettlesInActivations(s, oldSize, newSize);
    } else {
      forall n: nat ensures !Settled(Passes(s, oldSize, n), newSize) {
        TooFewNeverSettles(s, oldSize, newSize, n);
      }
    }
  }

  lemma {:induction false} SettlesInActivations(s: seq<int>, oldSize: nat, newSize: nat)
    requires oldSize <= |s| && newSize <= |s| && Enough(s, oldSize, newSize)
    ensures Passes(s, oldSize, Activations(s, oldSize, newSize)) == Settle(s, oldSize, newSize)
    decreases Sum(Gaps(s[..oldSize]))
  {
    var r := PassOver(s, oldSize);
    PassKeepsEnough(s, oldSize, newSize);
    if Settled(r, newSize) {
      assert Passes(s, oldSize, 1) == Passes(r, oldSize, 0);
    } else {
      PassProgress(s, oldSize, newSize);
      SettlesInActivations(r, oldSize, newSize);
    }
  }

  // ----- in place -----

  method Compress(fds: array<int>, oldSize: nat, newSize: nat) returns (ghost activations: nat)
    requires oldSize <= fds.Length && newSize <= fds.Length
    requires oldSize == newSize || Enough(fds[..], oldSize, newSize)
    modifies fds
    ensures oldSize == newSize ==> fds[..] == old(fds[..])
    ensures oldSize != newSize ==> fds[..] == Settle(old(fds[..]), oldSize, newSize)
    ensures oldSize != newSize ==> activations == Activations(old(fds[..]), oldSize, newSize)
    decreases Sum(Gaps(fds[..][..oldSize]))
  {
    activations := 0;
    if oldSize == newSize { return; }
    ghost var s := fds[..];
    ShiftHoles(fds, oldSize);
    ghost var r := fds[..];
    PassKeepsEnough(s, oldSize, newSize);
    activations := 1;
    for k := 0 to newSize
      invariant fds[..] == if activations == 1 then r else Settle(s, oldSize, newSize)
      invariant if activations == 1 then Settled(r, k) else activations == Activations(s, oldSize, newSize)
    {
      if fds[k] == REMOVE_FD {
        assert activations == 1 && r[k] == REMOVE_FD;
        Unfolded(s, oldSize, newSize);
        ghost var deeper := Compress(fds, oldSize, newSize);
        activations := 1 + deeper;
      }
    }
  }

  lemma Unfolded(s: seq<int>, oldSize: nat, newSize: nat)
    requires oldSize <= |s| && newSize <= |s| && Enough(s, oldSize, newSize)
    requires !Settled(PassOver(s, oldSize), newSize)
    ensures var r := PassOver(s, oldSize);
      && Enough(r, oldSize, newSize)
      && Settle(s, oldSize, newSize) == Settle(r, oldSize, newSize)
      && Activations(s, oldSize, newSize) == 1 + Activations(r, oldSize, newSize)
      && Sum(Gaps(r[..oldSize])) < Sum(Gaps(s[..oldSize]))
  {
    PassKeepsEnough(s, oldSize, newSize);
    PassProgress(s, oldSize, newSize);
  }

  method ShiftHoles(fds: array<int>, oldSize: nat)
    requires oldSize <= fds.Length
    modifies fds
    ensures fds[..] == PassOver(old(fds[..]), oldSize)
  {
    ghost var s := fds[..];
    assert fds[0..oldSize] == s[..oldSize];
    for i := 0 to oldSize
      invariant fds[..i] + Pass(fds[i..oldSize]) == Pass(s[..oldSize])
      invariant fds[oldSize..] == s[oldSize..]
    {
      ghost var front, rest := fds[..i], fds[i..oldSize];
      DeleteHole(fds, i, oldSize);
      ghost var t := fds[i..oldSize];
      PassAdvance(front, rest, t, Pass(s[..oldSize]));
      assert fds[..i + 1] == front + [t[0]];
      assert fds[i + 1..oldSize] == t[1..];
    }
    assert fds[..oldSize] == Pass(s[..oldSize]);
    assert fds[..] == fds[..oldSize] + fds[oldSize..];
  }

  /** What a hole in front does to the entries that a pass has still to visit. */
  function Deleted(s: seq<int>): (t: seq<int>)
    requires |s| > 0
    ensures |t| == |s|
  {
    if s[0] == REMOVE_FD then s[1..] + [REMOVE_FD] else s
  }

  lemma PassStep(s: seq<int>, t: seq<int>)
    requires |s| > 0 && t == Deleted(s)
    ensures Pass(s) == [t[0]] + Pass(t[1..])
  {
    if s[0] == REMOVE_FD {
      if |s| > 1 {
        assert t[1..] == s[2..] + [REMOVE_FD];
      } else {
        assert t[1..] == [];
      }
    }
  }

  lemma PassAdvance(front: seq<int>, s: seq<int>, t: seq<int>, whole: seq<int>)
    requires |s| > 0 && t == Deleted(s) && front + Pass(s) == whole
    ensures (front + [t[0]]) + Pass(t[1..]) == whole
  {
    PassStep(s, t);
    Assoc(front, [t[0]], Pass(t[1..]));
  }

  method DeleteHole(fds: array<int>, i: nat, oldSize: nat)
    requires i < oldSize <= fds.Length
    modifies fds
    ensures fds[..i] == old(fds[..i]) && fds[oldSize..] == old(fds[oldSize..])
    ensures fds[i..oldSize] == Deleted(old(fds[i..oldSize]))
  {
    ghost var rest := fds[i..oldSize];
    if fds[i] == REMOVE_FD {
      ShiftDown(fds, i, oldSize);
      assert rest[1..] == old(fds[i + 1..oldSize]);
    }
  }

  /** Bubbles the hole at i to the end of the first oldSize entries. */
  method ShiftDown(fds: array<int>, i: nat, oldSize: nat)
    requires i < oldSize <= fds.Length && fds[i] == REMOVE_FD
    modifies fds
    ensures fds[..i] == old(fds[..i]) && fds[oldSize..] == old(fds[oldSize..])
    ensures fds[i..oldSize] == old(fds[i + 1..oldSize]) + [REMOVE_FD]
  {
    var j := i;
    while j < oldSize - 1
      invariant i <= j < oldSize && fds[j] == REMOVE_FD
      invariant forall k :: i <= k < j ==> fds[k] == old(fds[k + 1])
      invariant forall k :: (0 <= k < i || j < k < fds.Length) ==> fds[k] == old(fds[k])
    {
      fds[j] := fds[j + 1];
      fds[j + 1] := REMOVE_FD;
      j := j + 1;
    }
  }
}
