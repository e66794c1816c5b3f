/** Version directories in the order of their generations, and what the operations of the install tree compute from
    it (`_generations`, `_next_generation`, `_resolve_version_dir`, `rollback` and `prune_versions` in
    raisin_ota/install_tree.py). */
module VersionOrder {
  import opened Wrappers
  import opened InstallTree

  /** Oldest first. */
  ghost predicate Ordered(order: seq<Version>) {
    forall i, j :: 0 <= i < j < |order| ==> order[i] != order[j] && order[i].gen <= order[j].gen
  }

  method NewestOf(s: set<Version>) returns (v: Version)
    requires s != {}
    ensures IsNewest(v, s)
  {
    v :| v in s;
    var rest := s - {v};
    while rest != {}
      invariant rest <= s && v in s
      invariant forall m :: m in s && m !in rest ==> m.gen <= v.gen
      decreases |rest|
    {
      var w :| w in rest;
      if w.gen > v.gen {
        v := w;
      }
      rest := rest - {w};
    }
  }

  method OldestFirst(s: set<Version>) returns (order: seq<Version>)
    ensures Ordered(order) && forall v :: v in order <==> v in s
  {
    order := [];
    var rest := s;
    while rest != {}
      invariant rest <= s && Ordered(order)
      invariant forall v :: v in order <==> v in s - rest
      invariant forall v, w :: v in rest && w in order ==> v.gen <= w.gen
      decreases |rest|
    {
      var v := NewestOf(rest);
      assert forall i :: 0 <= i < |order| ==> order[i] in order;
      order := [v] + order;
      rest := rest - {v};
    }
  }

  method IndexIn(order: seq<Version>, v: Version) returns (index: nat)
    requires v in order
    ensures index < |order| && order[index] == v
  {
    index := 0;
    while order[index] != v
      invariant index < |order| && v !in order[..index]
      decreases |order| - index
    {
      index := index + 1;
    }
  }

  /** Oldest first, the version before another one is the one before it in the order. */
  lemma OneBefore(d: Disk, order: seq<Version>, index: nat)
    requires DistinctGens(d) && Ordered(order) && (forall v :: v in order <==> v in d.versions) && index < |order|
    ensures Predecessor(d, order[index]) == if index > 0 then Some(order[index - 1]) else None
  {
    var v := order[index];
    forall m | m in Older(d, v)
      ensures exists j :: 0 <= j < index && order[j] == m
    {
      var j :| 0 <= j < |order| && order[j] == m;
    }
    if index > 0 {
      assert order[index - 1] in order;
      assert order[index - 1].gen != v.gen;
      NewestIsUnique(d, Older(d, v), order[index - 1]);
    }
  }

  method BeforeIt(dirs: set<Version>, ghost d: Disk, v: Version) returns (older: Option<Version>)
    requires DistinctGens(d) && dirs == d.versions.Keys && v in dirs
    ensures older == Predecessor(d, v)
  {
    var order := OldestFirst(dirs);
    var index := IndexIn(order, v);
    OneBefore(d, order, index);
    older := if index > 0 then Some(order[index - 1]) else None;
  }

  method NextGen(dirs: set<Version>, ghost d: Disk) returns (gen: nat)
    requires dirs == d.versions.Keys
    ensures gen == NextGeneration(d)
  {
    var order := OldestFirst(dirs);
    if order == [] {
      assert dirs == {};
      gen := 1;
    } else {
      assert order[|order| - 1] in order;
      gen := order[|order| - 1].gen + 1;
    }
  }

  /** The newest match in an order is what the version resolves to. */
  lemma ResolvedIs(d: Disk, version: string, found: Option<Version>)
    requires DistinctGens(d)
    requires if found.None? then Named(d, version) == {} else IsNewest(found.value, Named(d, version))
    ensures found == Resolve(d, version)
  {
    if found.Some? {
      NewestIsUnique(d, Named(d, version), found.value);
    }
  }

  // ---------------------------------------------------------------------------------------------
  // Pruning along the order

  function Less(d: Disk, gone: set<Version>): Disk {
    d.(versions := d.versions - gone)
  }

  lemma LessNothing(d: Disk)
    ensures Less(d, {}) == d
  {
    assert d.versions - {} == d.versions;
  }

  lemma LessOne(d: Disk, gone: set<Version>, v: Version)
    ensures var d1 := Less(d, gone);
            d1.(versions := d1.versions - {v}) == Less(d, gone + {v})
  {
    assert d.versions - gone - {v} == d.versions - (gone + {v});
  }

  lemma LessTwice(d: Disk, a: set<Version>, b: set<Version>)
    ensures Less(Less(d, a), b) == Less(d, a + b)
  {
    assert d.versions - a - b == d.versions - (a + b);
  }

  lemma {:induction false} DistinctSize(order: seq<Version>)
    requires Ordered(order)
    ensures |set v | v in order| == |order|
    decreases |order|
  {
    if order != [] {
      var rest := order[1..];
      DistinctSize(rest);
      assert forall i :: 0 <= i < |rest| ==> rest[i] == order[i + 1] != order[0];
      assert (set v | v in order) == (set v | v in rest) + {order[0]};
    }
  }

  lemma LaterIsNewer(order: seq<Version>, s: set<Version>, j: nat, v: Version)
    requires Ordered(order) && (forall v :: v in order <==> v in s) && j < |order|
    requires forall a, b :: a in s && b in s && a.gen == b.gen ==> a == b
    ensures v in NewerIn(s, order[j]) <==> v in order[j + 1..]
  {
    if v in s {
      assert v in order && order[j] in order;
      var i :| 0 <= i < |order| && order[i] == v;
      assert i > j ==> order[j + 1..][i - j - 1] == v;
    }
    if v in order[j + 1..] {
      var i :| 0 <= i < |order[j + 1..]| && order[j + 1..][i] == v;
      assert order[i + j + 1] == v && v in order && order[j] in order;
    }
  }

  /** In an order, oldest first, what is newer than a version is what comes after it. */
  lemma Rank(order: seq<Version>, s: set<Version>, j: nat)
    requires Ordered(order) && (forall v :: v in order <==> v in s) && j < |order|
    requires forall a, b :: a in s && b in s && a.gen == b.gen ==> a == b
    ensures |NewerIn(s, order[j])| == |order| - 1 - j
  {
    var later := order[j + 1..];
    forall v
      ensures v in NewerIn(s, order[j]) <==> v in later
    {
      LaterIsNewer(order, s, j, v);
    }
    assert NewerIn(s, order[j]) == set v | v in later;
    DistinctSize(later);
  }

  /** The stagings nothing points at. */
  function AbandonedIn(d: Disk, safe: set<Version>): set<Version> {
    set v | v in d.versions.Keys && Staged(d, v) && v !in safe
  }

  function Surviving(order: seq<Version>, gone: set<Version>): seq<Version>
    decreases |order|
  {
    if order == [] then [] else (if order[0] in gone then [] else [order[0]]) + Surviving(order[1..], gone)
  }

  lemma {:induction false} SurvivingAreOrdered(order: seq<Version>, gone: set<Version>)
    requires Ordered(order)
    ensures Ordered(Surviving(order, gone)) && forall v :: v in Surviving(order, gone) <==> v in order && v !in gone
    decreases |order|
  {
    if order != [] {
      var rest := Surviving(order[1..], gone);
      SurvivingAreOrdered(order[1..], gone);
      forall i | 0 <= i < |rest|
        ensures rest[i] != order[0] && order[0].gen <= rest[i].gen
      {
        assert rest[i] in order[1..];
      }
    }
  }

  lemma NextSurviving(done: seq<Version>, order: seq<Version>, i: nat, gone: set<Version>)
    requires i < |order|
    ensures done + Surviving(order[i..], gone) ==
            (if order[i] in gone then done else done + [order[i]]) + Surviving(order[i + 1..], gone)
  {
    assert order[i..][0] == order[i] && order[i..][1..] == order[i + 1..];
  }

  /** The order is that of these versions. */
  ghost predicate Pending(order: seq<Version>, s: set<Version>) {
    Ordered(order) && forall v :: v in order <==> v in s
  }

  lemma SurvivingPend(order: seq<Version>, s: set<Version>, gone: set<Version>)
    requires Pending(order, s)
    ensures Pending(Surviving(order, gone), s - gone)
  {
    SurvivingAreOrdered(order, gone);
  }

  lemma NextPending(order: seq<Version>, i: nat, s: set<Version>)
    requires i < |order| && Pending(order[i..], s)
    ensures order[i] in s && Pending(order[i + 1..], s - {order[i]})
  {
    var rest := order[i + 1..];
    assert order[i..] == [order[i]] + rest;
    assert order[i] in order[i..];
    forall j | 0 <= j < |rest|
      ensures rest[j] != order[i]
    {
      assert rest[j] == order[i..][j + 1];
    }
  }

  /** Removing the unprotected stagings, and of the rest all but the last `keep` unless protected, is pruning. */
  lemma PrunedIs(d: Disk, keep: int, committed: seq<Version>, surplus: set<Version>)
    requires DistinctGens(d) && Ordered(committed)
    requires forall v :: v in committed <==> v in d.versions && v !in AbandonedIn(d, Protected(d))
    requires var n := if AtLeastOne(keep) < |committed| then |committed| - AtLeastOne(keep) else 0;
             forall v :: v in surplus <==> v in committed[..n] && v !in Protected(d)
    ensures Less(d, AbandonedIn(d, Protected(d)) + surplus) == Prune(d, keep)
  {
    var abandoned := AbandonedIn(d, Protected(d));
    var n := if AtLeastOne(keep) < |committed| then |committed| - AtLeastOne(keep) else 0;
    forall v | v in d.versions
      ensures v in Kept(d, keep) <==> v !in abandoned + surplus
    {
      assert v in committed <==> v in Committed(d);
      if v in committed {
        var j :| 0 <= j < |committed| && committed[j] == v;
        Rank(committed, Committed(d), j);
        assert v in committed[..n] <==> j < n;
      }
    }
    assert d.versions - (abandoned + surplus) == map v | v in d.versions && v in Kept(d, keep) :: d.versions[v];
  }
}
