/** Which projects go into a build, and in which order (`build_dependency_graph` and `update_cmake_file` in
    commands/setup.py): the projects matching the build pattern, everything they depend on, each listed once
    and behind its dependencies. */
module BuildSelection {
  import opened DependencyOrder

  /** The elements of a list that belong to a set, in the list's order. */
  function Kept(keys: seq<Key>, s: set<Key>): (r: seq<Key>)
    ensures forall k :: k in r <==> k in keys && k in s
  {
    if keys == [] then [] else (if keys[0] in s then [keys[0]] else []) + Kept(keys[1..], s)
  }

  lemma {:induction false} KeptDistinct(keys: seq<Key>, s: set<Key>)
    requires Distinct(keys)
    ensures Distinct(Kept(keys, s))
  {
    if keys != [] {
      KeptDistinct(keys[1..], s);
      assert keys[0] !in keys[1..];
      var rest := Kept(keys[1..], s);
      if keys[0] in s {
        assert Kept(keys, s) == [keys[0]] + rest;
      } else {
        assert Kept(keys, s) == rest;
      }
    }
  }

  /** What a project declares, cut down to what is a project itself. */
  function KnownOnly(declared: Graph): (g: Graph)
    ensures g.Keys == declared.Keys && OwnDependencies(g)
    ensures forall k, d :: k in g ==> (d in g[k] <==> d in declared[k] && d in declared)
  {
    map k | k in declared :: Kept(declared[k], declared.Keys)
  }

  ghost predicate OwnDependencies(g: Graph) {
    forall k, d :: k in g && d in g[k] ==> d in g
  }

  ghost predicate Closed(g: Graph, s: set<Key>) {
    forall k, d :: k in s && k in g && d in g[k] ==> d in s
  }

  /** `s` is the least dependency-closed set that contains the matches. */
  ghost predicate LeastClosed(g: Graph, matches: seq<Key>, s: set<Key>) {
    && (forall k :: k in matches ==> k in s)
    && Closed(g, s)
    && forall t :: (forall k :: k in matches ==> k in t) && Closed(g, t) ==> s <= t
  }

  /** The work queue that follows dependencies from the matching projects. */
  method Select(g: Graph, matches: seq<Key>) returns (selected: set<Key>)
    requires OwnDependencies(g) && forall k :: k in matches ==> k in g
    ensures LeastClosed(g, matches, selected) && selected <= g.Keys
  {
    var queue := matches;
    var visited: set<Key> := {};
    while queue != []
      invariant visited <= g.Keys && forall k :: k in queue ==> k in g
      invariant forall k :: k in matches ==> k in visited || k in queue
      invariant forall k, d :: k in visited && d in g[k] ==> d in visited || d in queue
      invariant forall t :: (forall k :: k in matches ==> k in t) && Closed(g, t) ==>
                  visited <= t && forall k :: k in queue ==> k in t
      decreases |g.Keys - visited|, |queue|
    {
      var project := queue[0];
      queue := queue[1..];
      if project in visited {
        continue;
      }
      assert g.Keys - (visited + {project}) < g.Keys - visited by {
        assert project in g.Keys - visited;
      }
      SmallerSet(g.Keys - (visited + {project}), g.Keys - visited);
      visited := visited + {project};
      queue := queue + g[project];
    }
    selected := visited;
  }

  lemma SmallerSet(a: set<Key>, b: set<Key>)
    requires a < b
    ensures |a| < |b|
  {
    assert b == a + (b - a);
    assert b - a != {};
  }

  /** The graph of the selected projects only. */
  function Filtered(g: Graph, s: set<Key>): Graph {
    map k | k in g && k in s :: Kept(g[k], s)
  }

  lemma FilteredKeepsAcyclic(g: Graph, s: set<Key>)
    requires Acyclic(g)
    ensures Acyclic(Filtered(g, s))
  {
    var rank :| Ranked(g, rank);
    assert Ranked(Filtered(g, s), rank);
  }

  lemma FilteredShortChains(g: Graph, s: set<Key>)
    requires ShortChains(g)
    ensures ShortChains(Filtered(g, s))
  {
    forall c | Chain(Filtered(g, s), c)
      ensures |c| <= MAX_PASSES
    {
      assert Chain(g, c);
    }
  }

  /** In a list of the selected projects, sorted for the filtered graph, everything stands behind all its
      dependencies in the full graph. */
  lemma SortedForFullGraph(g: Graph, s: set<Key>, names: seq<Key>, k: Key, d: Key)
    requires s <= g.Keys && Closed(g, s) && Sorted(Filtered(g, s), names)
    requires k in s && d in g[k]
    ensures Before(names, d, k)
  {
    assert Settled(Filtered(g, s), names, k);
  }

  /** The list of projects the generated build file adds.  Not `ok` is the reported cycle. */
  method OrderedProjects(g: Graph, listed: seq<Key>, everything: bool, matches: seq<Key>)
    returns (ok: bool, names: seq<Key>, selected: set<Key>)
    requires OwnDependencies(g) && Lists(g, listed) && forall k :: k in matches ==> k in g
    ensures everything ==> selected == g.Keys
    ensures !everything ==> LeastClosed(g, matches, selected)
    ensures ok ==> Distinct(names) && forall k :: k in names <==> k in selected
    ensures ok && Acyclic(g) ==> forall k, d :: k in selected && k in g && d in g[k] ==> Before(names, d, k)
    ensures ShortChains(g) ==> ok
    ensures var graph, chosen := Filtered(g, selected), Kept(listed, selected);
            Acyclic(g) ==> Lists(graph, chosen) && (ok <==> SortResult(graph, chosen).Some?)
  {
    if everything {
      selected := g.Keys;
    } else {
      selected := Select(g, matches);
    }
    var graph := Filtered(g, selected);
    names := Kept(listed, selected);
    KeptDistinct(listed, selected);
    assert Lists(graph, names);
    ghost var acyclic := Acyclic(g);
    if acyclic {
      FilteredKeepsAcyclic(g, selected);
    }
    ghost var short := ShortChains(g);
    if short {
      FilteredShortChains(g, selected);
      ShallowGraphIsSorted(graph, names);
    }
    var sorting := new ProjectList(names);
    ok := sorting.TopologicalSort(graph);
    if !ok {
      return;
    }
    ghost var once := sorting.keys;
    if short {
      ShallowGraphIsSorted(graph, once);
    }
    if acyclic {
      SortingTwiceIsSortingOnce(graph, names);
    }
    ok := sorting.TopologicalSort(graph);
    names := sorting.keys;
    if ok && acyclic {
      assert names == once;
      forall k, d | k in selected && k in g && d in g[k]
        ensures Before(names, d, k)
      {
        SortedForFullGraph(g, selected, names, k, d);
      }
    }
  }
}
