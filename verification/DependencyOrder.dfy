/** Ordering of the projects of a build (`topological_sort` and `move_key_before` in commands/setup.py).

    The list of projects is repaired in place: whenever a project stands before one of its
    dependencies it is taken out and put back right after that dependency.  A pass does this for every
    project and every dependency; passes repeat until one of them leaves the list as it found it, and the
    twentieth pass that still changes something is reported as a cycle. */
module DependencyOrder {
  import opened Wrappers

  /** A project, known by its directory's name. */
  datatype Key = Project(name: string)
  type Graph = map<Key, seq<Key>>

  const MAX_PASSES: nat := 20

  predicate Distinct(keys: seq<Key>) {
    forall i, j :: 0 <= i < j < |keys| ==> keys[i] != keys[j]
  }

  /** The list holds every project of the graph, once. */
  ghost predicate Lists(g: Graph, keys: seq<Key>) {
    && Distinct(keys)
    && forall k :: k in keys <==> k in g
  }

  /** Where `k` stands; there is one such place when the list has no duplicates. */
  ghost function IndexOf(keys: seq<Key>, k: Key): (i: nat)
    requires k in keys
    ensures i < |keys| && keys[i] == k
  {
    var i :| 0 <= i < |keys| && keys[i] == k;
    i
  }

  ghost predicate Before(keys: seq<Key>, a: Key, b: Key) {
    a in keys && b in keys && IndexOf(keys, a) < IndexOf(keys, b)
  }

  /** Every dependency of `k` that is itself a project stands before `k`. */
  ghost predicate Settled(g: Graph, keys: seq<Key>, k: Key)
    requires k in g
  {
    forall d :: d in g[k] && d in g ==> Before(keys, d, k)
  }

  ghost predicate Sorted(g: Graph, keys: seq<Key>) {
    forall k :: k in g ==> Settled(g, keys, k)
  }

  /** `rank` decreases along every edge between two projects. */
  ghost predicate Ranked(g: Graph, rank: map<Key, nat>) {
    && g.Keys <= rank.Keys
    && forall k, d :: k in g && d in g[k] && d in g ==> rank[d] < rank[k]
  }

  ghost predicate Acyclic(g: Graph) {
    exists rank :: Ranked(g, rank)
  }

  /** A walk along dependencies, from dependent to dependency. */
  predicate Chain(g: Graph, c: seq<Key>) {
    && (forall i :: 0 <= i < |c| ==> c[i] in g)
    && forall i :: 0 <= i < |c| - 1 ==> c[i + 1] in g[c[i]]
  }

  /** No chain of dependencies has as many edges as there are passes. */
  ghost predicate ShortChains(g: Graph) {
    forall c :: Chain(g, c) ==> |c| <= MAX_PASSES
  }

  // ---------------------------------------------------------------------------------------------
  // One move

  /** `keys.remove` of the element at `p`, then `keys.insert` of it at `d`. */
  function Reinserted(keys: seq<Key>, p: nat, d: nat): (moved: seq<Key>)
    requires p <= d < |keys|
    ensures |moved| == |keys| && moved[d] == keys[p]
    ensures forall i :: 0 <= i < p || d < i < |keys| ==> moved[i] == keys[i]
    ensures forall i :: p <= i < d ==> moved[i] == keys[i + 1]
  {
    var rest := keys[..p] + keys[p + 1..];
    rest[..d] + [keys[p]] + rest[d..]
  }

  /** What one move makes of the list. */
  ghost function Moved(dep: Key, keys: seq<Key>, key: Key): seq<Key>
    requires dep in keys && key in keys
  {
    var depIndex, keyIndex := IndexOf(keys, dep), IndexOf(keys, key);
    if keyIndex > depIndex then keys else Reinserted(keys, keyIndex, depIndex)
  }

  /** The place, after the element at `p` went to `d`, of what was at `i`. */
  function NewPlace(i: nat, p: nat, d: nat): nat {
    if i == p then d else if p < i <= d then i - 1 else i
  }

  lemma ReinsertedDistinct(keys: seq<Key>, p: nat, d: nat)
    requires Distinct(keys) && p <= d < |keys|
    ensures Distinct(Reinserted(keys, p, d))
  {
    var moved := Reinserted(keys, p, d);
    forall i, j | 0 <= i < j < |moved|
      ensures moved[i] != moved[j]
    {
      var i' := if p <= i < d then i + 1 else if i == d then p else i;
      var j' := if p <= j < d then j + 1 else if j == d then p else j;
      assert moved[i] == keys[i'] && moved[j] == keys[j'] && i' != j';
    }
  }

  lemma ReinsertedPlace(keys: seq<Key>, p: nat, d: nat, k: Key)
    requires Distinct(keys) && p <= d < |keys| && k in keys
    ensures k in Reinserted(keys, p, d)
    ensures IndexOf(Reinserted(keys, p, d), k) == NewPlace(IndexOf(keys, k), p, d)
  {
    ReinsertedDistinct(keys, p, d);
    assert Reinserted(keys, p, d)[NewPlace(IndexOf(keys, k), p, d)] == k;
  }

  lemma ReinsertedElements(keys: seq<Key>, p: nat, d: nat, k: Key)
    requires p <= d < |keys|
    ensures k in Reinserted(keys, p, d) ==> k in keys
  {
  }

  /** A move keeps the list's elements, and puts `key` behind `dep`. */
  lemma MoveSettlesPair(dep: Key, keys: seq<Key>, key: Key)
    requires Distinct(keys) && dep in keys && key in keys
    ensures dep != key ==> Before(Moved(dep, keys, key), dep, key)
    ensures Before(keys, dep, key) || dep == key ==> Moved(dep, keys, key) == keys
  {
    var d, p := IndexOf(keys, dep), IndexOf(keys, key);
    if p == d {
      assert Reinserted(keys, p, p) == keys;
    } else if p < d {
      ReinsertedPlace(keys, p, d, dep);
      ReinsertedPlace(keys, p, d, key);
    }
  }

  lemma MoveKeepsElements(dep: Key, keys: seq<Key>, key: Key)
    requires Distinct(keys) && dep in keys && key in keys
    ensures Distinct(Moved(dep, keys, key))
    ensures forall k :: k in Moved(dep, keys, key) <==> k in keys
  {
    var d, p := IndexOf(keys, dep), IndexOf(keys, key);
    if p <= d {
      ReinsertedDistinct(keys, p, d);
      forall k
        ensures k in Moved(dep, keys, key) <==> k in keys
      {
        ReinsertedElements(keys, p, d, k);
        if k in keys {
          ReinsertedPlace(keys, p, d, k);
        }
      }
    }
  }

  lemma NewPlaceKeepsOrder(i: nat, j: nat, p: nat, d: nat)
    requires p <= d && i != p
    ensures j != p ==> (NewPlace(i, p, d) < NewPlace(j, p, d) <==> i < j)
    ensures j == p && i < j ==> NewPlace(i, p, d) < NewPlace(j, p, d)
  {
  }

  /** A move leaves the order of the other elements alone, and never carries `key` to the left of anything it
      stood behind. */
  lemma MoveKeepsOrder(dep: Key, keys: seq<Key>, key: Key, a: Key, b: Key)
    requires Distinct(keys) && dep in keys && key in keys && a in keys && b in keys && a != key
    ensures b != key ==> (Before(Moved(dep, keys, key), a, b) <==> Before(keys, a, b))
    ensures b == key && Before(keys, a, b) ==> Before(Moved(dep, keys, key), a, b)
  {
    var d, p := IndexOf(keys, dep), IndexOf(keys, key);
    if p <= d {
      ReinsertedPlace(keys, p, d, a);
      ReinsertedPlace(keys, p, d, b);
      NewPlaceKeepsOrder(IndexOf(keys, a), IndexOf(keys, b), p, d);
    }
  }

  // ---------------------------------------------------------------------------------------------
  // One pass

  /** The moves of one project, dependency by dependency. */
  ghost function Repaired(g: Graph, keys: seq<Key>, key: Key, deps: seq<Key>): (r: seq<Key>)
    requires Lists(g, keys) && key in g
    ensures Lists(g, r)
    decreases |deps|
  {
    if deps == [] then
      keys
    else if deps[0] in g then
      MoveKeepsElements(deps[0], keys, key);
      Repaired(g, Moved(deps[0], keys, key), key, deps[1..])
    else
      Repaired(g, keys, key, deps[1..])
  }

  /** One pass over the projects, in the order the list had at the start. */
  ghost function Pass(g: Graph, keys: seq<Key>, order: seq<Key>): (r: seq<Key>)
    requires Lists(g, keys) && forall k :: k in order ==> k in g
    ensures Lists(g, r)
    decreases |order|
  {
    if order == [] then keys else Pass(g, Repaired(g, keys, order[0], g[order[0]]), order[1..])
  }

  lemma {:induction false} RepairKeepsOrder(g: Graph, keys: seq<Key>, key: Key, deps: seq<Key>, a: Key, b: Key)
    requires Lists(g, keys) && key in g && a in g && b in g && a != key
    ensures b != key ==> (Before(Repaired(g, keys, key, deps), a, b) <==> Before(keys, a, b))
    ensures b == key && Before(keys, a, b) ==> Before(Repaired(g, keys, key, deps), a, b)
    decreases |deps|
  {
    if deps == [] {
    } else if deps[0] in g {
      MoveKeepsElements(deps[0], keys, key);
      MoveKeepsOrder(deps[0], keys, key, a, b);
      RepairKeepsOrder(g, Moved(deps[0], keys, key), key, deps[1..], a, b);
    } else {
      RepairKeepsOrder(g, keys, key, deps[1..], a, b);
    }
  }

  lemma {:induction false} RepairSettles(g: Graph, keys: seq<Key>, key: Key, deps: seq<Key>, d: Key)
    requires Lists(g, keys) && key in g && d in deps && d in g && d != key
    ensures Before(Repaired(g, keys, key, deps), d, key)
    decreases |deps|
  {
    if deps[0] in g {
      MoveKeepsElements(deps[0], keys, key);
      var moved := Moved(deps[0], keys, key);
      if deps[0] == d {
        MoveSettlesPair(d, keys, key);
        RepairKeepsOrder(g, moved, key, deps[1..], d, key);
      } else {
        RepairSettles(g, moved, key, deps[1..], d);
      }
    } else {
      RepairSettles(g, keys, key, deps[1..], d);
    }
  }

  lemma {:induction false} RepairOfSettled(g: Graph, keys: seq<Key>, key: Key, deps: seq<Key>)
    requires Lists(g, keys) && key in g
    requires forall d :: d in deps && d in g ==> Before(keys, d, key)
    ensures Repaired(g, keys, key, deps) == keys
    decreases |deps|
  {
    if deps == [] {
    } else {
      if deps[0] in g {
        MoveSettlesPair(deps[0], keys, key);
      }
      RepairOfSettled(g, keys, key, deps[1..]);
    }
  }

  /** A pass that visits only settled projects changes nothing. */
  lemma {:induction false} PassOfSettled(g: Graph, keys: seq<Key>, order: seq<Key>)
    requires Lists(g, keys) && forall k :: k in order ==> k in g && Settled(g, keys, k)
    ensures Pass(g, keys, order) == keys
    decreases |order|
  {
    if order != [] {
      assert order[0] in order;
      RepairOfSettled(g, keys, order[0], g[order[0]]);
      PassOfSettled(g, keys, order[1..]);
    }
  }

  /** A sorted list is left as it is. */
  lemma PassOfSorted(g: Graph, keys: seq<Key>, order: seq<Key>)
    requires Lists(g, keys) && (forall k :: k in order ==> k in g) && Sorted(g, keys)
    ensures Pass(g, keys, order) == keys
  {
    PassOfSettled(g, keys, order);
  }

  // ---------------------------------------------------------------------------------------------
  // Heights

  ghost predicate AllSettled(g: Graph, keys: seq<Key>, s: set<Key>)
    requires s <= g.Keys
  {
    forall k :: k in s ==> Settled(g, keys, k)
  }

  /** The projects of rank at most `h`. */
  ghost function UpTo(g: Graph, rank: map<Key, nat>, h: int): set<Key>
    requires Ranked(g, rank)
  {
    set k | k in g && rank[k] <= h
  }

  /** Repairing `key`, whose dependencies are all in `low`, settles it and unsettles nothing of `s`. */
  lemma RepairStep(g: Graph, rank: map<Key, nat>, h: int, keys: seq<Key>, s: set<Key>, key: Key)
    requires Ranked(g, rank) && Lists(g, keys) && key in g
    requires UpTo(g, rank, h) <= s <= UpTo(g, rank, h + 1) && AllSettled(g, keys, s)
    ensures var r := Repaired(g, keys, key, g[key]);
            && AllSettled(g, r, s)
            && (rank[key] <= h + 1 ==> AllSettled(g, r, s + {key}))
            && forall a, b :: a in s && b in s ==> (Before(r, a, b) <==> Before(keys, a, b))
  {
    var r := Repaired(g, keys, key, g[key]);
    if key in s {
      assert Settled(g, keys, key);
      RepairOfSettled(g, keys, key, g[key]);
      assert s + {key} == s;
    } else {
      forall a, b | a in s && b in s
        ensures Before(r, a, b) <==> Before(keys, a, b)
      {
        RepairKeepsOrder(g, keys, key, g[key], a, b);
      }
      forall k, d | k in s && d in g[k] && d in g
        ensures Before(r, d, k)
      {
        assert Settled(g, keys, k) && rank[d] < rank[k];
        assert d in UpTo(g, rank, h);
      }
      forall d | d in g[key] && d in g
        ensures Before(r, d, key)
      {
        RepairSettles(g, keys, key, g[key], d);
      }
    }
  }

  /** A pass that starts with every project of rank at most `h` in place leaves those where they stand
      relative to each other, and puts every project of rank `h + 1` it visits in place. */
  lemma {:induction false} PassStep(g: Graph, rank: map<Key, nat>, h: int, keys: seq<Key>, s: set<Key>, order: seq<Key>)
    requires Ranked(g, rank) && Lists(g, keys) && forall k :: k in order ==> k in g
    requires UpTo(g, rank, h) <= s <= UpTo(g, rank, h + 1) && AllSettled(g, keys, s)
    ensures var r := Pass(g, keys, order);
            && AllSettled(g, r, s)
            && (forall k :: k in order && rank[k] <= h + 1 ==> Settled(g, r, k))
            && forall a, b :: a in s && b in s ==> (Before(r, a, b) <==> Before(keys, a, b))
    decreases |order|
  {
    if order != [] {
      var key := order[0];
      var next := Repaired(g, keys, key, g[key]);
      RepairStep(g, rank, h, keys, s, key);
      var s' := if rank[key] <= h + 1 then s + {key} else s;
      PassStep(g, rank, h, next, s', order[1..]);
    }
  }

  /** A whole pass raises the height up to which everything is in place by one. */
  lemma FullPass(g: Graph, rank: map<Key, nat>, h: int, keys: seq<Key>, order: seq<Key>)
    requires Ranked(g, rank) && Lists(g, keys) && Lists(g, order)
    requires AllSettled(g, keys, UpTo(g, rank, h))
    ensures AllSettled(g, Pass(g, keys, order), UpTo(g, rank, h + 1))
  {
    PassStep(g, rank, h, keys, UpTo(g, rank, h), order);
  }

  lemma PassKeepsPair(g: Graph, rank: map<Key, nat>, h: int, keys: seq<Key>, order: seq<Key>, a: Key, b: Key)
    requires Ranked(g, rank) && Lists(g, keys) && Lists(g, order)
    requires AllSettled(g, keys, UpTo(g, rank, h))
    requires a in g && b in g && rank[a] <= h && rank[b] <= h
    ensures Before(Pass(g, keys, order), a, b) <==> Before(keys, a, b)
  {
    PassStep(g, rank, h, keys, UpTo(g, rank, h), order);
    assert a in UpTo(g, rank, h) && b in UpTo(g, rank, h);
  }

  /** The list after a number of passes; each pass visits the projects in the order of the original list. */
  ghost function Passes(g: Graph, keys: seq<Key>, order: seq<Key>, n: nat): (r: seq<Key>)
    requires Lists(g, keys) && forall k :: k in order ==> k in g
    ensures Lists(g, r)
    decreases n
  {
    if n == 0 then keys else Pass(g, Passes(g, keys, order, n - 1), order)
  }

  /** After pass `h` every project of rank at most `h` stands behind all its dependencies. */
  lemma {:induction false} InPlaceAfter(g: Graph, rank: map<Key, nat>, keys: seq<Key>, order: seq<Key>, h: nat)
    requires Ranked(g, rank) && Lists(g, keys) && Lists(g, order)
    ensures AllSettled(g, Passes(g, keys, order, h), UpTo(g, rank, h))
    decreases h
  {
    if h > 0 {
      InPlaceAfter(g, rank, keys, order, h - 1);
      FullPass(g, rank, h - 1, Passes(g, keys, order, h - 1), order);
    }
  }

  lemma NextPassKeepsPair(g: Graph, rank: map<Key, nat>, keys: seq<Key>, order: seq<Key>, n: nat, a: Key, b: Key)
    requires Ranked(g, rank) && Lists(g, keys) && Lists(g, order)
    requires a in g && b in g && rank[a] <= n && rank[b] <= n
    ensures Before(Passes(g, keys, order, n + 1), a, b) <==> Before(Passes(g, keys, order, n), a, b)
  {
    InPlaceAfter(g, rank, keys, order, n);
    PassKeepsPair(g, rank, n, Passes(g, keys, order, n), order, a, b);
  }

  /** ... and from then on no pass changes the order of two of them. */
  lemma {:induction false} InPlaceStays(g: Graph, rank: map<Key, nat>, keys: seq<Key>, order: seq<Key>, h: nat, n: nat,
                                        a: Key, b: Key)
    requires Ranked(g, rank) && Lists(g, keys) && Lists(g, order) && h <= n
    requires a in g && b in g && rank[a] <= h && rank[b] <= h
    ensures Before(Passes(g, keys, order, n), a, b) <==> Before(Passes(g, keys, order, h), a, b)
    decreases n - h
  {
    if h < n {
      NextPassKeepsPair(g, rank, keys, order, h, a, b);
      InPlaceStays(g, rank, keys, order, h + 1, n, a, b);
    }
  }

  // ---------------------------------------------------------------------------------------------
  // The whole sort

  /** The passes from number `i` on: stop at one that changed nothing, give up when the last one still did. */
  ghost function SortFrom(g: Graph, keys: seq<Key>, order: seq<Key>, i: nat): (r: Option<seq<Key>>)
    requires Lists(g, keys) && (forall k :: k in order ==> k in g) && i < MAX_PASSES
    ensures r.Some? ==> Lists(g, r.value) && Pass(g, r.value, order) == r.value
    decreases MAX_PASSES - i
  {
    var next := Pass(g, keys, order);
    if next == keys then Some(keys)
    else if i == MAX_PASSES - 1 then None
    else SortFrom(g, next, order, i + 1)
  }

  lemma SortFromOnce(g: Graph, keys: seq<Key>, order: seq<Key>, i: nat)
    requires Lists(g, keys) && (forall k :: k in order ==> k in g) && i < MAX_PASSES
    ensures var next := Pass(g, keys, order);
            && (next == keys ==> SortFrom(g, keys, order, i) == Some(keys))
            && (next != keys && i == MAX_PASSES - 1 ==> SortFrom(g, keys, order, i) == None)
            && (next != keys && i < MAX_PASSES - 1 ==> SortFrom(g, keys, order, i) == SortFrom(g, next, order, i + 1))
  {
  }

  ghost function SortResult(g: Graph, keys: seq<Key>): (r: Option<seq<Key>>)
    requires Lists(g, keys)
    ensures r.Some? ==> Lists(g, r.value) && Pass(g, r.value, keys) == r.value
  {
    SortFrom(g, keys, keys, 0)
  }

  /** On an acyclic graph a pass that ends on the order it began with found a sorted list: no two of its
      moves can have cancelled. */
  lemma {:induction false} FixpointSettles(g: Graph, rank: map<Key, nat>, keys: seq<Key>, order: seq<Key>, h: nat)
    requires Ranked(g, rank) && Lists(g, keys) && Lists(g, order)
    requires Pass(g, keys, order) == keys
    ensures AllSettled(g, keys, UpTo(g, rank, h))
    decreases h
  {
    if h > 0 {
      FixpointSettles(g, rank, keys, order, h - 1);
      FullPass(g, rank, h - 1, keys, order);
    }
  }

  lemma FixpointIsSorted(g: Graph, keys: seq<Key>, order: seq<Key>)
    requires Acyclic(g) && Lists(g, keys) && Lists(g, order)
    ensures Pass(g, keys, order) == keys <==> Sorted(g, keys)
  {
    if Sorted(g, keys) {
      PassOfSorted(g, keys, order);
    }
    if Pass(g, keys, order) == keys {
      var rank :| Ranked(g, rank);
      forall k | k in g
        ensures Settled(g, keys, k)
      {
        FixpointSettles(g, rank, keys, order, rank[k]);
        assert k in UpTo(g, rank, rank[k]);
      }
    }
  }

  /** Only an acyclic graph has a sorted list. */
  lemma SortedNeedsAcyclic(g: Graph, keys: seq<Key>)
    requires Lists(g, keys) && Sorted(g, keys)
    ensures Acyclic(g)
  {
    var rank: map<Key, nat> := map k | k in g :: IndexOf(keys, k);
    forall k, d | k in g && d in g[k] && d in g
      ensures rank[d] < rank[k]
    {
      assert Settled(g, keys, k);
    }
    assert Ranked(g, rank);
  }

  /** Whatever the sort returns is sorted exactly when the graph has no cycle. */
  lemma NormalReturnIsSorted(g: Graph, keys: seq<Key>)
    requires Lists(g, keys) && SortResult(g, keys).Some?
    ensures Sorted(g, SortResult(g, keys).value) <==> Acyclic(g)
  {
    var r := SortResult(g, keys).value;
    if Acyclic(g) {
      FixpointIsSorted(g, r, keys);
    }
    if Sorted(g, r) {
      SortedNeedsAcyclic(g, r);
    }
  }

  /** Sorting a sorted list changes nothing, so the second of the two sorts in a row is the identity. */
  lemma SortingTwiceIsSortingOnce(g: Graph, keys: seq<Key>)
    requires Lists(g, keys) && Acyclic(g) && SortResult(g, keys).Some?
    ensures SortResult(g, SortResult(g, keys).value) == SortResult(g, keys)
  {
    NormalReturnIsSorted(g, keys);
    var r := SortResult(g, keys).value;
    PassOfSorted(g, r, r);
  }

  /** Once as many passes are done as the graph is high, the next one changes nothing. */
  lemma PassAfterHeightIsIdle(g: Graph, rank: map<Key, nat>, keys: seq<Key>, order: seq<Key>, n: nat)
    requires Ranked(g, rank) && Lists(g, keys) && Lists(g, order)
    requires forall k :: k in g ==> rank[k] <= n
    ensures Pass(g, Passes(g, keys, order, n), order) == Passes(g, keys, order, n)
  {
    InPlaceAfter(g, rank, keys, order, n);
    assert UpTo(g, rank, n) == g.Keys;
    PassOfSorted(g, Passes(g, keys, order, n), order);
  }

  lemma {:induction false} SortFromAfter(g: Graph, rank: map<Key, nat>, order: seq<Key>, i: nat)
    requires Ranked(g, rank) && Lists(g, order) && i < MAX_PASSES
    requires forall k :: k in g ==> rank[k] < MAX_PASSES
    ensures SortFrom(g, Passes(g, order, order, i), order, i).Some?
    decreases MAX_PASSES - i
  {
    if i == MAX_PASSES - 1 {
      PassAfterHeightIsIdle(g, rank, order, order, i);
    } else {
      SortFromAfter(g, rank, order, i + 1);
    }
  }

  // ---------------------------------------------------------------------------------------------
  // Longest chains

  ghost predicate Longest(g: Graph, k: Key, fuel: nat, n: nat)
    requires k in g
  {
    && n <= fuel
    && (exists c :: Chain(g, c) && |c| == n + 1 && c[0] == k)
    && forall c :: Chain(g, c) && |c| > 0 && c[0] == k && |c| <= fuel + 1 ==> |c| <= n + 1
  }

  /** Among the chains of at most `fuel` edges that start at `k` one is longest. */
  lemma {:induction false} LongestExists(g: Graph, k: Key, fuel: nat)
    requires k in g
    ensures exists n :: Longest(g, k, fuel, n)
    decreases fuel
  {
    if fuel == 0 {
      var single := [k];
      assert Chain(g, single) && |single| == 1 && single[0] == k;
      assert Longest(g, k, 0, 0);
    } else if c :| Chain(g, c) && |c| == fuel + 1 && c[0] == k {
      assert Longest(g, k, fuel, fuel);
    } else {
      LongestExists(g, k, fuel - 1);
      var n :| Longest(g, k, fuel - 1, n);
      assert Longest(g, k, fuel, n);
    }
  }

  ghost function ChainRank(g: Graph, k: Key, fuel: nat): (n: nat)
    requires k in g
    ensures Longest(g, k, fuel, n)
  {
    LongestExists(g, k, fuel);
    var n :| Longest(g, k, fuel, n);
    n
  }

  lemma ChainRankDecreases(g: Graph, k: Key, d: Key)
    requires k in g && d in g && d in g[k]
    requires ChainRank(g, d, MAX_PASSES) < MAX_PASSES
    ensures ChainRank(g, d, MAX_PASSES) < ChainRank(g, k, MAX_PASSES)
  {
    var c :| Chain(g, c) && |c| == ChainRank(g, d, MAX_PASSES) + 1 && c[0] == d;
    var longer := [k] + c;
    assert longer[0] == k;
    assert forall i :: 0 <= i < |longer| - 1 ==> longer[i + 1] == c[i];
    assert Chain(g, longer);
  }

  /** Without a chain of `MAX_PASSES` edges the graph has a ranking below `MAX_PASSES`. */
  lemma ShortChainsRank(g: Graph) returns (rank: map<Key, nat>)
    requires ShortChains(g)
    ensures Ranked(g, rank)
    ensures forall k :: k in g ==> rank[k] < MAX_PASSES
  {
    rank := map k | k in g :: ChainRank(g, k, MAX_PASSES);
    forall k | k in g
      ensures rank[k] < MAX_PASSES
    {
      var n := ChainRank(g, k, MAX_PASSES);
      assert Longest(g, k, MAX_PASSES, n);
      var c :| Chain(g, c) && |c| == n + 1 && c[0] == k;
    }
    forall k, d | k in g && d in g[k] && d in g
      ensures rank[d] < rank[k]
    {
      ChainRankDecreases(g, k, d);
    }
  }

  /** A graph without a chain of twenty edges is sorted within the twenty passes. */
  lemma ShallowGraphIsSorted(g: Graph, keys: seq<Key>)
    requires Lists(g, keys)
    requires ShortChains(g)
    ensures SortResult(g, keys).Some?
    ensures Lists(g, SortResult(g, keys).value) && Sorted(g, SortResult(g, keys).value)
  {
    var rank := ShortChainsRank(g);
    SortFromAfter(g, rank, keys, 0);
    NormalReturnIsSorted(g, keys);
  }

  /** Two projects that depend on each other: each of the two moves of a pass undoes the other. */
  lemma TwoCyclePass(g: Graph, a: Key, b: Key)
    requires a != b && g == map[a := [b], b := [a]] && Lists(g, [a, b])
    ensures Pass(g, [a, b], [a, b]) == [a, b]
  {
    var ab, ba := [a, b], [b, a];
    assert ab[0] == a && ab[1] == b && ba[0] == b && ba[1] == a;
    assert IndexOf(ab, a) == 0 && IndexOf(ab, b) == 1 && IndexOf(ba, a) == 1 && IndexOf(ba, b) == 0;
    assert Moved(b, ab, a) == ba && Moved(a, ba, b) == ab;
    assert [b][1..] == [] && [a][1..] == [];
    assert Repaired(g, ab, a, [b]) == ba;
    assert Repaired(g, ba, b, [a]) == ab;
    assert ab[1..] == [b];
    assert Pass(g, ba, [b]) == Pass(g, ab, []) == ab;
  }

  /** So the sort returns such a list unsorted instead of reporting the cycle. */
  lemma TwoCycleReturnsUnsorted(a: Key, b: Key)
    requires a != b
    ensures var g := map[a := [b], b := [a]];
            && Lists(g, [a, b])
            && SortResult(g, [a, b]) == Some([a, b])
            && !Sorted(g, [a, b])
  {
    var g: Graph := map[a := [b], b := [a]];
    var ab := [a, b];
    assert ab[0] == a && ab[1] == b;
    TwoCyclePass(g, a, b);
    assert IndexOf(ab, a) == 0 && IndexOf(ab, b) == 1;
    assert !Settled(g, ab, a);
  }

  // ---------------------------------------------------------------------------------------------
  // The list that is repaired in place

  class ProjectList {
    var keys: seq<Key>

    constructor (keys: seq<Key>)
      ensures this.keys == keys
    {
      this.keys := keys;
    }

    /** Puts `key` right behind `dep` unless it already stands behind it. */
    method MoveKeyBefore(dep: Key, key: Key)
      requires Distinct(keys) && dep in keys && key in keys
      modifies this
      ensures keys == Moved(dep, old(keys), key)
    {
      var depIndex :| 0 <= depIndex < |keys| && keys[depIndex] == dep;
      var keyIndex :| 0 <= keyIndex < |keys| && keys[keyIndex] == key;
      assert depIndex == IndexOf(keys, dep) && keyIndex == IndexOf(keys, key);
      if keyIndex > depIndex {
        return;
      }
      keys := keys[..keyIndex] + keys[keyIndex + 1..];
      keys := keys[..depIndex] + [key] + keys[depIndex..];
    }

    /** One project's moves. */
    method Repair(g: Graph, key: Key)
      requires Lists(g, keys) && key in g
      modifies this
      ensures Lists(g, keys) && keys == Repaired(g, old(keys), key, g[key])
    {
      var deps := g[key];
      for j := 0 to |deps|
        invariant Lists(g, keys)
        invariant Repaired(g, keys, key, deps[j..]) == Repaired(g, old(keys), key, deps)
      {
        assert deps[j..][1..] == deps[j + 1..];
        if deps[j] in g {
          MoveKeepsElements(deps[j], keys, key);
          MoveKeyBefore(deps[j], key);
        }
      }
    }

    method RunPass(g: Graph, order: seq<Key>)
      requires Lists(g, keys) && forall k :: k in order ==> k in g
      modifies this
      ensures Lists(g, keys) && keys == Pass(g, old(keys), order)
    {
      for j := 0 to |order|
        invariant Lists(g, keys)
        invariant Pass(g, keys, order[j..]) == Pass(g, old(keys), order)
      {
        assert order[j..][1..] == order[j + 1..];
        Repair(g, order[j]);
      }
    }

    /** Repeats passes until one changes nothing; false when the last allowed pass still did. */
    method TopologicalSort(g: Graph) returns (ok: bool)
      requires Lists(g, keys)
      modifies this
      ensures ok <==> SortResult(g, old(keys)).Some?
      ensures ok ==> Some(keys) == SortResult(g, old(keys))
      ensures ok ==> Lists(g, keys) && (Sorted(g, keys) <==> Acyclic(g))
    {
      var original := keys;
      ghost var result := SortResult(g, original);
      ok := true;
      var i := 0;
      while i < MAX_PASSES
        invariant Lists(g, keys) && i < MAX_PASSES && SortFrom(g, keys, original, i) == result
      {
        var previous := keys;
        RunPass(g, original);
        SortFromOnce(g, previous, original, i);
        if previous == keys {
          break;
        }
        if i == MAX_PASSES - 1 {
          return false;
        }
        i := i + 1;
      }
      NormalReturnIsSorted(g, original);
    }
  }
}
