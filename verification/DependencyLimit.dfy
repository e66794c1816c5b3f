/** How far the passes of the sort reach (`topological_sort` in commands/setup.py): a chain of dependencies listed
    with the dependents first takes one pass an edge, so the limit on the passes is a limit on chains. */
module DependencyLimit {
  import opened Wrappers
  import opened DependencyOrder

  /** Every project of the chain depends on the one before it. */
  ghost predicate IsChain(g: Graph, ks: seq<Key>) {
    && ks != [] && Lists(g, ks)
    && g[ks[0]] == []
    && forall i :: 0 < i < |ks| ==> g[ks[i]] == [ks[i - 1]]
  }

  // Which project of a chain with `n` edges stands at place `i`: after `h` passes ...

  function ReachedAt(n: nat, h: nat, i: nat): (k: nat)
    requires h <= n && i <= n
    ensures k <= n
  {
    if i < n - h then n - i else i - (n - h)
  }

  // ... and inside the pass after those, when project number `j` is to be visited and the one visited before it
  // went behind it.

  function VisitingAt(n: nat, h: nat, j: nat, i: nat): (k: nat)
    requires h < j <= n && i <= n
    ensures k <= n
  {
    if j < n && i == n - j - 1 then j else if j < n && i == n - j then j + 1 else ReachedAt(n, h, i)
  }

  /** The list after `h` passes: the first `h + 1` projects of the chain at the end in their order, the others
      in front of them with the dependents first. */
  function Reached(ks: seq<Key>, h: nat): (keys: seq<Key>)
    requires h < |ks|
    ensures |keys| == |ks|
  {
    seq(|ks|, i requires 0 <= i < |ks| => ks[ReachedAt(|ks| - 1, h, i)])
  }

  function Visiting(ks: seq<Key>, h: nat, j: nat): (keys: seq<Key>)
    requires h < j < |ks|
    ensures |keys| == |ks|
  {
    seq(|ks|, i requires 0 <= i < |ks| => ks[VisitingAt(|ks| - 1, h, j, i)])
  }

  /** Where `Reached` has project number `j`. */
  function PlaceOf(n: nat, h: nat, j: nat): nat
    requires h <= n && j <= n
  {
    if j > h then n - j else n - h + j
  }

  lemma ReachedPlace(ks: seq<Key>, h: nat, j: nat)
    requires h < |ks| && j < |ks|
    ensures PlaceOf(|ks| - 1, h, j) < |ks| && Reached(ks, h)[PlaceOf(|ks| - 1, h, j)] == ks[j]
  {
  }

  lemma ReachedLists(g: Graph, ks: seq<Key>, h: nat)
    requires IsChain(g, ks) && h < |ks|
    ensures Lists(g, Reached(ks, h))
  {
    var keys := Reached(ks, h);
    forall k
      ensures k in keys <==> k in g
    {
      if k in g {
        var j :| 0 <= j < |ks| && ks[j] == k;
        ReachedPlace(ks, h, j);
      }
    }
  }

  lemma SwapLists(g: Graph, keys: seq<Key>, i: nat)
    requires Lists(g, keys) && i + 1 < |keys|
    ensures Lists(g, keys[i := keys[i + 1]][i + 1 := keys[i]])
  {
    var swapped := keys[i := keys[i + 1]][i + 1 := keys[i]];
    forall k
      ensures k in swapped <==> k in keys
    {
      if k in keys {
        var j :| 0 <= j < |keys| && keys[j] == k;
        assert swapped[if j == i then i + 1 else if j == i + 1 then i else j] == k;
      }
    }
  }

  lemma VisitingSwaps(ks: seq<Key>, h: nat, j: nat, i: nat)
    requires h < j < |ks| - 1 && i == |ks| - 2 - j
    ensures var keys := Reached(ks, h);
            Visiting(ks, h, j) == keys[i := keys[i + 1]][i + 1 := keys[i]]
  {
    var keys := Reached(ks, h);
    assert keys[i] == ks[j + 1] && keys[i + 1] == ks[j];
  }

  lemma VisitingLists(g: Graph, ks: seq<Key>, h: nat, j: nat)
    requires h < j < |ks| && Lists(g, Reached(ks, h))
    ensures Lists(g, Visiting(ks, h, j))
  {
    if j < |ks| - 1 {
      VisitingSwaps(ks, h, j, |ks| - 2 - j);
      SwapLists(g, Reached(ks, h), |ks| - 2 - j);
    } else {
      assert Visiting(ks, h, j) == Reached(ks, h);
    }
  }

  /** With one dependency a repair is one move. */
  lemma OneMove(g: Graph, keys: seq<Key>, key: Key, dep: Key, p: nat, d: nat, next: seq<Key>)
    requires Lists(g, keys) && p <= d < |keys| && keys[p] == key && keys[d] == dep
    requires next == Reinserted(keys, p, d)
    ensures key in g && dep in g && Repaired(g, keys, key, [dep]) == next
  {
    assert keys[p] in keys && keys[d] in keys;
    assert IndexOf(keys, keys[p]) == p && IndexOf(keys, keys[d]) == d;
    MoveKeepsElements(keys[d], keys, keys[p]);
    assert [keys[d]][1..] == [];
  }

  /** The list when project number `j` has been visited. */
  function Visited(ks: seq<Key>, h: nat, j: nat): (keys: seq<Key>)
    requires h < j < |ks|
    ensures |keys| == |ks|
  {
    if j == h + 1 then Reached(ks, h + 1) else Visiting(ks, h, j - 1)
  }

  function FromPlace(n: nat, j: nat): nat
    requires j <= n
  {
    if j == n then 0 else n - j - 1
  }

  function ToPlace(n: nat, h: nat, j: nat): (d: nat)
    requires h < j <= n
    ensures FromPlace(n, j) <= d <= n
  {
    if j == h + 1 then n else n - j + 1
  }

  /** Where a project that is not in place yet stands, and where the one it depends on. */
  lemma VisitPlaces(ks: seq<Key>, h: nat, j: nat)
    requires h < j < |ks|
    ensures Visiting(ks, h, j)[FromPlace(|ks| - 1, j)] == ks[j]
    ensures Visiting(ks, h, j)[ToPlace(|ks| - 1, h, j)] == ks[j - 1]
  {
  }

  /** Which project number the move brings to place `i`. */
  function VisitedAt(n: nat, h: nat, j: nat, i: nat): (k: nat)
    requires h < j <= n && i <= n
    ensures k <= n
  {
    if j == h + 1 then ReachedAt(n, h + 1, i) else VisitingAt(n, h, j - 1, i)
  }

  lemma VisitedFrom(n: nat, h: nat, j: nat, i: nat)
    requires h < j <= n && i <= n
    ensures var p, d := FromPlace(n, j), ToPlace(n, h, j);
            VisitedAt(n, h, j, i) == VisitingAt(n, h, j, if i == d then p else if p <= i < d then i + 1 else i)
  {
  }

  /** Put behind the one it depends on, it leaves the next one to visit in front of its own.  The last of them
      ends the part that is in place. */
  lemma VisitReinserts(ks: seq<Key>, h: nat, j: nat)
    requires h < j < |ks|
    ensures Visited(ks, h, j) == Reinserted(Visiting(ks, h, j), FromPlace(|ks| - 1, j), ToPlace(|ks| - 1, h, j))
  {
    var n, keys, next := |ks| - 1, Visiting(ks, h, j), Visited(ks, h, j);
    var p, d := FromPlace(n, j), ToPlace(n, h, j);
    forall i | 0 <= i < |ks|
      ensures next[i] == Reinserted(keys, p, d)[i]
    {
      VisitedFrom(n, h, j, i);
      assert next[i] == ks[VisitedAt(n, h, j, i)];
    }
  }

  lemma VisitMoves(g: Graph, ks: seq<Key>, h: nat, j: nat)
    requires h < j < |ks| && Lists(g, Visiting(ks, h, j))
    ensures ks[j] in g && Repaired(g, Visiting(ks, h, j), ks[j], [ks[j - 1]]) == Visited(ks, h, j)
  {
    var n := |ks| - 1;
    VisitPlaces(ks, h, j);
    VisitReinserts(ks, h, j);
    OneMove(g, Visiting(ks, h, j), ks[j], ks[j - 1], FromPlace(n, j), ToPlace(n, h, j), Visited(ks, h, j));
  }

  // ---------------------------------------------------------------------------------------------
  // A pass, and all of them

  lemma InPlaceSettled(g: Graph, ks: seq<Key>, h: nat, j: nat)
    requires IsChain(g, ks) && j <= h < |ks|
    ensures ks[j] in g && Settled(g, Reached(ks, h), ks[j])
  {
    ReachedLists(g, ks, h);
    assert ks[j] in ks;
    if j > 0 {
      ReachedPlace(ks, h, j);
      ReachedPlace(ks, h, j - 1);
      assert IndexOf(Reached(ks, h), ks[j]) == PlaceOf(|ks| - 1, h, j);
      assert IndexOf(Reached(ks, h), ks[j - 1]) == PlaceOf(|ks| - 1, h, j - 1);
    }
  }

  /** The dependents first. */
  function Downwards(ks: seq<Key>): seq<Key>
    requires ks != []
  {
    Reached(ks, 0)
  }

  /** What a pass visits from project number `j` on. */
  function ToVisit(ks: seq<Key>, j: nat): seq<Key>
    requires j < |ks|
  {
    Downwards(ks)[|ks| - 1 - j..]
  }

  lemma FirstToVisit(ks: seq<Key>, j: nat)
    requires 0 < j < |ks|
    ensures ToVisit(ks, j) != [] && ToVisit(ks, j)[0] == ks[j] && ToVisit(ks, j)[1..] == ToVisit(ks, j - 1)
  {
  }

  lemma PassNext(g: Graph, keys: seq<Key>, order: seq<Key>, key: Key, rest: seq<Key>, next: seq<Key>)
    requires Lists(g, keys) && order != [] && order[0] == key && order[1..] == rest && forall k :: k in order ==> k in g
    requires Repaired(g, keys, key, g[key]) == next
    ensures Lists(g, next) && (forall k :: k in rest ==> k in g) && Pass(g, keys, order) == Pass(g, next, rest)
  {
  }

  lemma DownwardsKnown(g: Graph, ks: seq<Key>)
    requires IsChain(g, ks)
    ensures Lists(g, Downwards(ks)) && forall k :: k in Downwards(ks) ==> k in g
  {
    ReachedLists(g, ks, 0);
  }

  lemma ToVisitPlace(ks: seq<Key>, j: nat, k: Key)
    requires j < |ks| && k in ToVisit(ks, j)
    ensures exists i :: 0 <= i <= j && k == ks[i]
  {
    var rest := ToVisit(ks, j);
    var i :| 0 <= i < |rest| && rest[i] == k;
    assert k == ks[j - i];
  }

  /** The visits from project number `j` on find everything in place. */
  lemma RestIsIdle(g: Graph, ks: seq<Key>, h: nat, j: nat)
    requires IsChain(g, ks) && j <= h < |ks|
    ensures Lists(g, Reached(ks, h)) && forall k :: k in ToVisit(ks, j) ==> k in g
    ensures Pass(g, Reached(ks, h), ToVisit(ks, j)) == Reached(ks, h)
  {
    ReachedLists(g, ks, h);
    forall k | k in ToVisit(ks, j)
      ensures k in g && Settled(g, Reached(ks, h), k)
    {
      ToVisitPlace(ks, j, k);
      var i :| 0 <= i <= j && k == ks[i];
      InPlaceSettled(g, ks, h, i);
    }
    PassOfSettled(g, Reached(ks, h), ToVisit(ks, j));
  }

  lemma VisitingKnown(g: Graph, ks: seq<Key>, h: nat, j: nat)
    requires IsChain(g, ks) && h < j < |ks|
    ensures Lists(g, Visiting(ks, h, j)) && ks[j] in g && g[ks[j]] == [ks[j - 1]]
    ensures forall k :: k in ToVisit(ks, j) ==> k in g
  {
    DownwardsKnown(g, ks);
    ReachedLists(g, ks, h);
    VisitingLists(g, ks, h, j);
  }

  /** The visits of a pass from project number `j` on. */
  lemma {:induction false} VisitsFrom(g: Graph, ks: seq<Key>, h: nat, j: nat)
    requires IsChain(g, ks) && h < j < |ks|
    ensures Lists(g, Visiting(ks, h, j)) && forall k :: k in ToVisit(ks, j) ==> k in g
    ensures Pass(g, Visiting(ks, h, j), ToVisit(ks, j)) == Reached(ks, h + 1)
    decreases j
  {
    VisitingKnown(g, ks, h, j);
    FirstToVisit(ks, j);
    VisitMoves(g, ks, h, j);
    PassNext(g, Visiting(ks, h, j), ToVisit(ks, j), ks[j], ToVisit(ks, j - 1), Visited(ks, h, j));
    if j == h + 1 {
      RestIsIdle(g, ks, h + 1, h);
    } else {
      VisitsFrom(g, ks, h, j - 1);
    }
  }

  lemma FirstVisit(ks: seq<Key>, h: nat)
    requires h + 1 < |ks|
    ensures Visiting(ks, h, |ks| - 1) == Reached(ks, h) && ToVisit(ks, |ks| - 1) == Downwards(ks)
  {
  }

  lemma ReachedDiffers(ks: seq<Key>, h: nat)
    requires Distinct(ks) && h + 1 < |ks|
    ensures Reached(ks, h + 1) != Reached(ks, h)
  {
    var n := |ks| - 1;
    assert ReachedAt(n, h, n) == h && ReachedAt(n, h + 1, n) == h + 1;
    assert Reached(ks, h + 1)[n] == ks[h + 1] && Reached(ks, h)[n] == ks[h];
  }

  lemma SamePass(g: Graph, a: seq<Key>, b: seq<Key>, order: seq<Key>, order': seq<Key>)
    requires Lists(g, a) && (forall k :: k in order ==> k in g) && a == b && order == order'
    ensures Lists(g, b) && (forall k :: k in order' ==> k in g) && Pass(g, a, order) == Pass(g, b, order')
  {
  }

  /** A pass brings exactly one more project in place. */
  lemma PassReachesOneMore(g: Graph, ks: seq<Key>, h: nat)
    requires IsChain(g, ks) && h + 1 < |ks|
    ensures Lists(g, Reached(ks, h)) && forall k :: k in Downwards(ks) ==> k in g
    ensures Pass(g, Reached(ks, h), Downwards(ks)) == Reached(ks, h + 1)
    ensures Reached(ks, h + 1) != Reached(ks, h)
  {
    FirstVisit(ks, h);
    VisitsFrom(g, ks, h, |ks| - 1);
    SamePass(g, Visiting(ks, h, |ks| - 1), Reached(ks, h), ToVisit(ks, |ks| - 1), Downwards(ks));
    ReachedDiffers(ks, h);
  }

  lemma PassOfAllReached(g: Graph, ks: seq<Key>)
    requires IsChain(g, ks)
    ensures Lists(g, Reached(ks, |ks| - 1)) && forall k :: k in Downwards(ks) ==> k in g
    ensures Pass(g, Reached(ks, |ks| - 1), Downwards(ks)) == Reached(ks, |ks| - 1)
  {
    DownwardsKnown(g, ks);
    RestIsIdle(g, ks, |ks| - 1, |ks| - 1);
    assert ToVisit(ks, |ks| - 1) == Downwards(ks);
  }

  lemma StopsAtTheLimit(g: Graph, ks: seq<Key>, h: nat)
    requires IsChain(g, ks) && h + 1 < |ks| && h < MAX_PASSES
    ensures Lists(g, Reached(ks, h)) && Lists(g, Reached(ks, h + 1)) && forall k :: k in Downwards(ks) ==> k in g
    ensures SortFrom(g, Reached(ks, h), Downwards(ks), h) ==
            if h == MAX_PASSES - 1 then None else SortFrom(g, Reached(ks, h + 1), Downwards(ks), h + 1)
  {
    ReachedLists(g, ks, h + 1);
    PassReachesOneMore(g, ks, h);
  }

  lemma {:induction false} SortingFrom(g: Graph, ks: seq<Key>, h: nat)
    requires IsChain(g, ks) && h < |ks| && h < MAX_PASSES
    ensures Lists(g, Reached(ks, h)) && forall k :: k in Downwards(ks) ==> k in g
    ensures SortFrom(g, Reached(ks, h), Downwards(ks), h).Some? <==> |ks| <= MAX_PASSES
    decreases MAX_PASSES - h
  {
    if h == |ks| - 1 {
      PassOfAllReached(g, ks);
    } else {
      StopsAtTheLimit(g, ks, h);
      if h < MAX_PASSES - 1 {
        SortingFrom(g, ks, h + 1);
      }
    }
  }

  /** A chain listed with the dependents first is sorted if and only if it has fewer than twenty edges; a longer
      one is reported as a cycle although it has none. */
  lemma LongChainsAreReported(g: Graph, ks: seq<Key>)
    requires IsChain(g, ks)
    ensures Acyclic(g) && Lists(g, Downwards(ks))
    ensures SortResult(g, Downwards(ks)).Some? <==> |ks| - 1 < 20
  {
    SortingFrom(g, ks, 0);
    var last := |ks| - 1;
    ReachedLists(g, ks, last);
    forall k | k in g
      ensures Settled(g, Reached(ks, last), k)
    {
      var j :| 0 <= j < |ks| && ks[j] == k;
      InPlaceSettled(g, ks, last, j);
    }
    SortedNeedsAcyclic(g, Reached(ks, last));
  }
}
