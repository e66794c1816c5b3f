/** What the operations of the install tree do inside version directories, write by write (`stage_version`,
    `discard_staging` and `prune_versions` in raisin_ota/install_tree.py).

    The order in which the names of a directory are linked or removed is the file system's, so it is a parameter. */
module InstallWrites {
  import opened InstallTree

  // ---------------------------------------------------------------------------------------------
  // Sequences of writes

  lemma ApplyOne(d: Disk, a: Write)
    ensures ApplyAll(d, [a]) == Apply(d, a)
  {
    assert [a][1..] == [];
  }

  lemma ApplyTwo(d: Disk, a: Write, b: Write)
    ensures ApplyAll(d, [a, b]) == Apply(Apply(d, a), b)
  {
    assert [a, b][1..] == [b];
    ApplyOne(Apply(d, a), b);
  }

  lemma {:induction false} ApplyAllConcat(d: Disk, a: seq<Write>, b: seq<Write>)
    ensures ApplyAll(d, a + b) == ApplyAll(ApplyAll(d, a), b)
    decreases |a|
  {
    if a == [] {
      assert a + b == b;
    } else {
      assert (a + b)[1..] == a[1..] + b;
      ApplyAllConcat(Apply(d, a[0]), a[1..], b);
    }
  }

  /** Interrupted after `k` writes of one sequence and then another. */
  lemma PrefixOfConcat(d: Disk, a: seq<Write>, b: seq<Write>, k: nat)
    requires k <= |a| + |b|
    ensures ApplyAll(d, (a + b)[..k]) ==
            if k <= |a| then ApplyAll(d, a[..k]) else ApplyAll(ApplyAll(d, a), b[..k - |a|])
  {
    if k <= |a| {
      assert (a + b)[..k] == a[..k];
    } else {
      assert (a + b)[..k] == a + b[..k - |a|];
      ApplyAllConcat(d, a, b[..k - |a|]);
    }
  }

  /** The write is one inside these directories, or makes or removes one of them. */
  predicate Inside(vs: set<Version>, w: Write) {
    match w
    case MakeDir(v) => v in vs
    case LinkFile(v, _, _) => v in vs
    case PutFile(v, _, _) => v in vs
    case RemoveName(v, _) => v in vs
    case RemoveDir(v) => v in vs
    case _ => false
  }

  predicate AllInside(vs: set<Version>, ws: seq<Write>) {
    forall w :: w in ws ==> Inside(vs, w)
  }

  lemma {:induction false} InsideTouches(d: Disk, ws: seq<Write>, vs: set<Version>)
    requires AllInside(vs, ws)
    ensures OnlyTouches(d, ApplyAll(d, ws), vs)
    decreases |ws|
  {
    if ws != [] {
      assert ws[0] in ws;
      assert OnlyTouches(d, Apply(d, ws[0]), vs);
      InsideTouches(Apply(d, ws[0]), ws[1..], vs);
    }
  }

  /** So however far such writes get, nothing but those directories differs. */
  lemma InterruptedInside(d: Disk, ws: seq<Write>, vs: set<Version>, k: nat)
    requires AllInside(vs, ws) && k <= |ws|
    ensures OnlyTouches(d, ApplyAll(d, ws[..k]), vs)
  {
    InsideTouches(d, ws[..k], vs);
  }

  /** The write is about the rollback pointer or the session. */
  predicate Aside(w: Write) {
    w.SetPrevious? || w.SetSession?
  }

  lemma {:induction false} AsideKeeps(d: Disk, ws: seq<Write>)
    requires forall w :: w in ws ==> Aside(w)
    ensures ApplyAll(d, ws).versions == d.versions && ApplyAll(d, ws).link == d.link
    decreases |ws|
  {
    if ws != [] {
      assert ws[0] in ws;
      AsideKeeps(Apply(d, ws[0]), ws[1..]);
    }
  }

  // ---------------------------------------------------------------------------------------------
  // Names one by one

  /** These names, in some order. */
  ghost predicate Covers(order: seq<Path>, names: set<Path>) {
    forall p :: p in order <==> p in names
  }

  function Removes(v: Version, order: seq<Path>): (ws: seq<Write>)
    ensures AllInside({v}, ws)
  {
    seq(|order|, i requires 0 <= i < |order| => RemoveName(v, order[i]))
  }

  function Links(v: Version, from: Version, order: seq<Path>): (ws: seq<Write>)
    ensures AllInside({v}, ws)
  {
    seq(|order|, i requires 0 <= i < |order| => LinkFile(v, from, order[i]))
  }

  function NamesIn(order: seq<Path>): (names: set<Path>)
    ensures forall p :: p in names <==> p in order
  {
    set p | p in order
  }

  lemma {:induction false} RemovesResult(d: Disk, v: Version, order: seq<Path>)
    requires v in d.versions
    ensures ApplyAll(d, Removes(v, order)) == Edited(d, v, d.versions[v] - NamesIn(order))
    decreases |order|
  {
    if order == [] {
      assert d.versions[v] - NamesIn(order) == d.versions[v] && d.versions[v := d.versions[v]] == d.versions;
    } else {
      var d1 := Apply(d, RemoveName(v, order[0]));
      RemovesResult(d1, v, order[1..]);
      assert d.versions[v] - {order[0]} - NamesIn(order[1..]) == d.versions[v] - NamesIn(order);
      assert Removes(v, order)[1..] == Removes(v, order[1..]);
    }
  }

  /** A tree with some names of another one added. */
  function Linked(tree: Tree, src: Tree, order: seq<Path>): Tree {
    tree + map p | p in src && p in order :: src[p]
  }

  lemma LinkedNext(tree: Tree, src: Tree, order: seq<Path>)
    requires order != [] && order[0] in src
    ensures Linked(tree[order[0] := src[order[0]]], src, order[1..]) == Linked(tree, src, order)
  {
    assert order == [order[0]] + order[1..];
  }

  lemma {:induction false} LinksResult(d: Disk, v: Version, from: Version, order: seq<Path>)
    requires v in d.versions && from in d.versions && v != from
    requires forall p :: p in order ==> p in d.versions[from]
    ensures ApplyAll(d, Links(v, from, order)) == Edited(d, v, Linked(d.versions[v], d.versions[from], order))
    decreases |order|
  {
    var tree, src := d.versions[v], d.versions[from];
    if order == [] {
      assert Linked(tree, src, order) == tree && d.versions[v := tree] == d.versions;
    } else {
      assert order[0] in order;
      LinksResult(Apply(d, LinkFile(v, from, order[0])), v, from, order[1..]);
      LinkedNext(tree, src, order);
      assert Links(v, from, order)[1..] == Links(v, from, order[1..]);
    }
  }

  /** A file is made, or emptied, before its content is written. */
  function Puts(v: Version, p: Path, content: Content): (ws: seq<Write>)
    ensures AllInside({v}, ws)
  {
    if content.Subdirectory? then [PutFile(v, p, content)] else [PutFile(v, p, EMPTY), PutFile(v, p, content)]
  }

  lemma PutsResult(d: Disk, v: Version, p: Path, content: Content)
    requires v in d.versions
    ensures ApplyAll(d, Puts(v, p, content)) == Edited(d, v, d.versions[v][p := content])
  {
    ApplyOne(d, PutFile(v, p, content));
    ApplyTwo(d, PutFile(v, p, EMPTY), PutFile(v, p, content));
    assert d.versions[v][p := EMPTY][p := content] == d.versions[v][p := content];
  }

  lemma WritesAssociative(a: seq<Write>, b: seq<Write>, c: seq<Write>)
    ensures (a + b) + c == a + (b + c)
  {
  }

  lemma RemovesConcat(v: Version, a: seq<Path>, b: seq<Path>)
    ensures Removes(v, a + b) == Removes(v, a) + Removes(v, b)
  {
  }

  lemma NextRemove(v: Version, order: seq<Path>, p: Path)
    ensures Removes(v, order + [p]) == Removes(v, order) + [RemoveName(v, p)]
  {
  }

  lemma NextLink(v: Version, from: Version, order: seq<Path>, p: Path)
    ensures Links(v, from, order + [p]) == Links(v, from, order) + [LinkFile(v, from, p)]
  {
  }

  // ---------------------------------------------------------------------------------------------
  // Staging

  ghost function CloneWrites(d: Disk, v: Version, order: seq<Path>): (ws: seq<Write>)
    ensures AllInside({v}, ws)
  {
    [MakeDir(v)] + if Current(d).Some? then Links(v, Current(d).value, order) else []
  }

  /** `stage_version`: the directory, a link for every file of the live tree, the marker. */
  ghost function StageWrites(d: Disk, version: string, order: seq<Path>): (ws: seq<Write>)
    ensures AllInside({Staging(d, version)}, ws)
  {
    CloneWrites(d, Staging(d, version), order) + [PutFile(Staging(d, version), MARKER, EMPTY)]
  }

  lemma CloneResult(d: Disk, v: Version, order: seq<Path>)
    requires v !in d.versions && Covers(order, LiveTree(d).Keys)
    ensures ApplyAll(d, CloneWrites(d, v, order)) == Edited(d, v, LiveTree(d))
  {
    ApplyAllConcat(d, [MakeDir(v)], if Current(d).Some? then Links(v, Current(d).value, order) else []);
    ApplyOne(d, MakeDir(v));
    var d1 := Apply(d, MakeDir(v));
    if Current(d).Some? {
      LinksResult(d1, v, Current(d).value, order);
      assert Linked(map[], LiveTree(d), order) == LiveTree(d);
    }
  }

  lemma StageResult(d: Disk, version: string, order: seq<Path>)
    requires Covers(order, LiveTree(d).Keys)
    ensures ApplyAll(d, StageWrites(d, version, order)) == Stage(d, version)
  {
    var v := Staging(d, version);
    CloneResult(d, v, order);
    ApplyAllConcat(d, CloneWrites(d, v, order), [PutFile(v, MARKER, EMPTY)]);
    ApplyOne(Edited(d, v, LiveTree(d)), PutFile(v, MARKER, EMPTY));
  }

  // ---------------------------------------------------------------------------------------------
  // Discarding and pruning

  /** The names of a directory are removed, then the directory. */
  function RemoveTree(v: Version, order: seq<Path>): (ws: seq<Write>)
    ensures AllInside({v}, ws)
  {
    Removes(v, order) + [RemoveDir(v)]
  }

  lemma RemoveTreeResult(d: Disk, v: Version, order: seq<Path>)
    requires v in d.versions
    ensures ApplyAll(d, RemoveTree(v, order)) == d.(versions := d.versions - {v})
  {
    ApplyAllConcat(d, Removes(v, order), [RemoveDir(v)]);
    RemovesResult(d, v, order);
    var d1 := ApplyAll(d, Removes(v, order));
    ApplyOne(d1, RemoveDir(v));
    assert d1.versions - {v} == d.versions - {v};
  }

  ghost function Discarded(d: Disk, version: string): (vs: set<Version>)
    ensures Current(d).Some? ==> Current(d).value !in vs
  {
    if Resolve(d, version).Some? && Current(d) != Resolve(d, version) then {Resolve(d, version).value} else {}
  }

  ghost function DiscardWrites(d: Disk, version: string, order: seq<Path>): (ws: seq<Write>)
    ensures AllInside(Discarded(d, version), ws)
  {
    if Discarded(d, version) == {} then [] else RemoveTree(Resolve(d, version).value, order)
  }

  lemma DiscardResult(d: Disk, version: string, order: seq<Path>)
    ensures ApplyAll(d, DiscardWrites(d, version, order)) == Discard(d, version)
  {
    if Discarded(d, version) != {} {
      RemoveTreeResult(d, Resolve(d, version).value, order);
    }
  }

  /** A directory that goes, and the order in which its names do. */
  datatype Removal = Removal(v: Version, order: seq<Path>)

  function Victims(removals: seq<Removal>): (vs: set<Version>)
    ensures forall g: Removal :: g in removals ==> g.v in vs
  {
    set g: Removal | g in removals :: g.v
  }

  function PruneWrites(removals: seq<Removal>): (ws: seq<Write>)
    ensures AllInside(Victims(removals), ws)
    decreases |removals|
  {
    if removals == [] then [] else RemoveTree(removals[0].v, removals[0].order) + PruneWrites(removals[1..])
  }

  /** The directories pruning removes, each once. */
  ghost predicate Prunes(d: Disk, keep: int, removals: seq<Removal>) {
    Victims(removals) == d.versions.Keys - Kept(d, keep) && Different(removals)
  }

  ghost predicate Different(removals: seq<Removal>) {
    forall i, j :: 0 <= i < j < |removals| ==> removals[i].v != removals[j].v
  }

  lemma NextVictims(removals: seq<Removal>)
    requires removals != [] && Different(removals)
    ensures Different(removals[1..]) && Victims(removals) == {removals[0].v} + Victims(removals[1..])
    ensures removals[0].v !in Victims(removals[1..])
  {
    var rest := removals[1..];
    assert removals == [removals[0]] + rest;
    forall g: Removal | g in rest
      ensures g.v != removals[0].v
    {
      var i :| 0 <= i < |rest| && rest[i] == g;
      assert removals[i + 1] == g;
    }
  }

  lemma {:induction false} RemovalsResult(d: Disk, removals: seq<Removal>)
    requires Victims(removals) <= d.versions.Keys && Different(removals)
    ensures ApplyAll(d, PruneWrites(removals)) == d.(versions := d.versions - Victims(removals))
    decreases |removals|
  {
    if removals == [] {
      assert d.versions - Victims(removals) == d.versions;
    } else {
      var g, rest := removals[0], removals[1..];
      var d1 := d.(versions := d.versions - {g.v});
      NextVictims(removals);
      RemoveTreeResult(d, g.v, g.order);
      RemovalsResult(d1, rest);
      ApplyAllConcat(d, RemoveTree(g.v, g.order), PruneWrites(rest));
      assert d.versions - {g.v} - Victims(rest) == d.versions - Victims(removals);
    }
  }

  lemma PruneCarriedOut(d: Disk, keep: int, removals: seq<Removal>)
    requires Prunes(d, keep, removals)
    ensures ApplyAll(d, PruneWrites(removals)) == Prune(d, keep)
  {
    RemovalsResult(d, removals);
    assert d.versions - Victims(removals) == Prune(d, keep).versions;
  }

  lemma {:induction false} PruneWritesConcat(a: seq<Removal>, b: seq<Removal>)
    ensures PruneWrites(a + b) == PruneWrites(a) + PruneWrites(b)
    decreases |a|
  {
    if a == [] {
      assert a + b == b;
    } else {
      var first, rest := RemoveTree(a[0].v, a[0].order), a[1..];
      assert (a + b)[0] == a[0] && (a + b)[1..] == rest + b;
      assert PruneWrites(a + b) == first + PruneWrites(rest + b);
      PruneWritesConcat(rest, b);
      WritesAssociative(first, PruneWrites(rest), PruneWrites(b));
    }
  }

  lemma OnePrune(g: Removal)
    ensures PruneWrites([g]) == RemoveTree(g.v, g.order)
  {
    assert [g][1..] == [];
    assert RemoveTree(g.v, g.order) + [] == RemoveTree(g.v, g.order);
  }

  /** One more directory goes. */
  lemma NextRemoval(removals: seq<Removal>, g: Removal)
    requires Different(removals) && g.v !in Victims(removals)
    ensures Different(removals + [g]) && Victims(removals + [g]) == Victims(removals) + {g.v}
    ensures PruneWrites(removals + [g]) == PruneWrites(removals) + RemoveTree(g.v, g.order)
  {
    PruneWritesConcat(removals, [g]);
    OnePrune(g);
    forall i | 0 <= i < |removals|
      ensures removals[i].v != g.v
    {
      assert removals[i] in removals;
    }
  }
}
