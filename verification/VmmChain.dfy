/**
  Publishing a page whose intermediate tables are missing: up to three fresh tables are filled in private, and one
  store into the existing entry makes them reachable.
*/
module VmmChain {
  import opened MemoryMap
  import opened PageTable
  import opened VmmTree

  /** PRESENT, WRITABLE and USER, so that the new tables restrict nothing. */
  function Parent(f: Frame): Entry { Zero.(present := true, writable := true, user := true, frame := f) }

  function Link(frames: seq<Frame>, leaf: Entry, j: nat): Entry
    requires j < |frames|
  {
    if j + 1 < |frames| then Parent(frames[j + 1]) else leaf
  }

  /** Table `j` of the chain is empty but for its link. */
  ghost predicate LinkOk(m: Memory, frames: seq<Frame>, path: seq<nat>, leaf: Entry, j: nat)
    requires |path| == 4 && 1 <= |frames| <= 3 && j < |frames|
  {
    forall i {:trigger At(m, frames[j], i)} | 0 <= i < 512 ::
      At(m, frames[j], i) == if i == path[4 - |frames| + j] then Link(frames, leaf, j) else Zero
  }

  ghost predicate Fresh(place: Places, foreign: set<Frame>, limit: nat, frames: seq<Frame>) {
    && (forall i, j | 0 <= i < j < |frames| :: frames[i] != frames[j])
    && (forall j | 0 <= j < |frames| :: frames[j] !in place && frames[j] !in foreign && frames[j] < limit)
  }

  ghost predicate Chain(t: Space, frames: seq<Frame>, path: seq<nat>, leaf: Entry) {
    && Indices(path) && 1 <= |frames| <= 3
    && (forall j | 0 <= j < |frames| :: frames[j] in t.reach && frames[j] < t.limit)
    && (forall j {:trigger LinkOk(t.mem, frames, path, leaf, j)} | 0 <= j < |frames| :: LinkOk(t.mem, frames, path, leaf, j))
    && leaf.present && EntryOk(t, leaf, 1)
  }

  /** Down the chain, the published path arrives at the leaf with the rights it came with; any other path ends early. */
  lemma {:induction false} ChainDescend(t: Space, frames: seq<Frame>, path: seq<nat>, leaf: Entry, q: seq<nat>, j: nat,
                                        w: bool, u: bool, n: bool)
    requires Chain(t, frames, path, leaf) && Indices(q) && j < |frames| && q[..4 - |frames| + j] == path[..4 - |frames| + j]
    ensures var o := Descend(t, q, frames[j], |frames| - j, w, u, n);
      && o.Stop? && 1 <= o.level <= 4
      && (q == path ==> o == Stop(Loc(frames[|frames| - 1], path[3]), leaf, 1, w, u, n))
      && (q != path ==> o.value == Zero && o.writable == w && o.user == u && o.nx == n)
    decreases |frames| - j
  {
    var k := 4 - |frames| + j;
    var e := At(t.mem, frames[j], q[k]);
    assert LinkOk(t.mem, frames, path, leaf, j);
    assert e == if q[k] == path[k] then Link(frames, leaf, j) else Zero;
    if q[k] == path[k] {
      assert q[..k + 1] == q[..k] + [q[k]] && path[..k + 1] == path[..k] + [path[k]];
      if j + 1 < |frames| {
        ChainDescend(t, frames, path, leaf, q, j + 1, w, u, n);
      } else {
        assert q[..4] == q && path[..4] == path;
      }
    }
  }

  /** Paths that share the indices down to where one stops, stop together. */
  lemma {:induction false} StopShared(s: Space, path: seq<nat>, q: seq<nat>, f: Frame, level: nat, w: bool, u: bool, n: bool)
    requires Indices(path) && Indices(q) && 1 <= level <= 4 && Descend(s, path, f, level, w, u, n).Stop?
    requires var o := Descend(s, path, f, level, w, u, n); 1 <= o.level <= level && q[..5 - o.level] == path[..5 - o.level]
    ensures Descend(s, q, f, level, w, u, n) == Descend(s, path, f, level, w, u, n)
    decreases level
  {
    var o := Descend(s, path, f, level, w, u, n);
    assert q[4 - level] == q[..5 - o.level][4 - level] == path[..5 - o.level][4 - level] == path[4 - level];
    var e := At(s.mem, f, path[4 - level]);
    if Descends(s, e, level) {
      DescendLevel(s, path, e.frame, level - 1, w && e.writable, u && e.user, n || e.nx);
      StopShared(s, path, q, e.frame, level - 1, w && e.writable, u && e.user, n || e.nx);
    }
  }

  lemma {:induction false} DescendLevel(s: Space, path: seq<nat>, f: Frame, level: nat, w: bool, u: bool, n: bool)
    requires |path| == 4 && 1 <= level <= 4
    ensures var o := Descend(s, path, f, level, w, u, n); o.Stop? ==> 1 <= o.level <= level
    decreases level
  {
    var e := At(s.mem, f, path[4 - level]);
    if f in s.reach && Descends(s, e, level) {
      DescendLevel(s, path, e.frame, level - 1, w && e.writable, u && e.user, n || e.nx);
    }
  }

  // ---------------------------------------------------------------- publication

  ghost predicate Published(s: Space, t: Space, place: Places, foreign: set<Frame>, v: nat, frames: seq<Frame>, leaf: Entry) {
    var o := Walk(s, v);
    && Canonical(v) && o.Stop? && o.level == |frames| + 1 && !o.value.present
    && AgreesBut(s, t, place, foreign, o.at) && Fresh(place, foreign, s.limit, frames)
    && Chain(t, frames, Path(v), leaf)
    && At(t.mem, o.at.frame, o.at.index) == Parent(frames[0])
  }

  ghost function Grown(place: Places, frames: seq<Frame>, path: seq<nat>): Places
    requires |path| == 4 && |frames| <= 3
  {
    map f | f in place.Keys + set j | 0 <= j < |frames| :: frames[j] ::
      if f in place then place[f] else path[..4 - |frames| + Place(frames, f)]
  }

  ghost function Place(frames: seq<Frame>, f: Frame): (j: nat)
    ensures j <= |frames| && (j < |frames| ==> frames[j] == f) && forall i | 0 <= i < j :: frames[i] != f
  {
    if frames == [] || frames[0] == f then 0 else 1 + Place(frames[1..], f)
  }

  ghost predicate Extends(place: Places, place': Places, frames: seq<Frame>, path: seq<nat>) {
    && |path| == 4 && |frames| <= 3
    && (forall f :: f in place' <==> f in place || f in frames)
    && (forall f | f in place :: place'[f] == place[f])
    && (forall j | 0 <= j < |frames| :: frames[j] in place' && place'[frames[j]] == path[..4 - |frames| + j])
  }

  lemma GrownExtends(place: Places, foreign: set<Frame>, limit: nat, frames: seq<Frame>, path: seq<nat>)
    requires Fresh(place, foreign, limit, frames) && |path| == 4 && |frames| <= 3
    ensures Extends(place, Grown(place, frames, path), frames, path)
  {
    forall j | 0 <= j < |frames| ensures Place(frames, frames[j]) == j {
      var i := Place(frames, frames[j]);
      assert i <= j;
    }
  }

  /** The chain's own tables fit the extended tree. */
  lemma ChainTables(t: Space, place: Places, place': Places, foreign: set<Frame>, frames: seq<Frame>, path: seq<nat>,
                    leaf: Entry, j: nat)
    requires Chain(t, frames, path, leaf) && Extends(place, place', frames, path) && j < |frames|
    ensures TableOk(t, place', foreign, frames[j])
  {
    assert LinkOk(t.mem, frames, path, leaf, j);
    var f, k := frames[j], 4 - |frames| + j;
    assert path[..k] + [path[k]] == path[..k + 1];
    forall i {:trigger ChildOk(t, place', foreign, f, i)} | 0 <= i < 512 ensures ChildOk(t, place', foreign, f, i) {
      assert At(t.mem, f, i) == if i == path[k] then Link(frames, leaf, j) else Zero;
    }
  }

  lemma OldTables(s: Space, t: Space, place: Places, place': Places, foreign: set<Frame>, frames: seq<Frame>, path: seq<nat>,
                  at: Loc, f: Frame)
    requires Tree(s, place, foreign) && AgreesBut(s, t, place, foreign, at) && Extends(place, place', frames, path)
    requires f in place && frames != [] && at.frame in place && |place[at.frame]| == 3 - |frames|
    requires place[at.frame] + [at.index] == path[..4 - |frames|] && At(t.mem, at.frame, at.index) == Parent(frames[0])
    ensures TableOk(t, place', foreign, f)
  {
    assert TableOk(s, place, foreign, f);
    forall i {:trigger ChildOk(t, place', foreign, f, i)} | 0 <= i < 512 ensures ChildOk(t, place', foreign, f, i) {
      assert ChildOk(s, place, foreign, f, i);
      if Loc(f, i) != at { assert At(t.mem, f, i) == At(s.mem, f, i); }
    }
  }

  lemma PublishTree(s: Space, t: Space, place: Places, foreign: set<Frame>, v: nat, frames: seq<Frame>, leaf: Entry)
    requires Tree(s, place, foreign) && Published(s, t, place, foreign, v, frames, leaf)
    ensures Tree(t, Grown(place, frames, Path(v)), foreign)
  {
    hide TableOk;
    var place', o, path := Grown(place, frames, Path(v)), Walk(s, v), Path(v);
    GrownExtends(place, foreign, s.limit, frames, path);
    TreeWalk(s, place, foreign, v);
    StopPlaced(s, place, foreign, path, s.root, 4, true, true, false);
    assert path[..4 - o.level] + [path[4 - o.level]] == path[..5 - o.level];
    forall f {:trigger TableOk(t, place', foreign, f)} | f in place' ensures TableOk(t, place', foreign, f) {
      if f in place {
        OldTables(s, t, place, place', foreign, frames, path, o.at, f);
      } else {
        var j :| 0 <= j < |frames| && frames[j] == f;
        ChainTables(t, place, place', foreign, frames, path, leaf, j);
      }
    }
  }

  /** A path through the entry where the walk of `v` stops, stops there too. */
  lemma StopsTogether(s: Space, place: Places, foreign: set<Frame>, v: nat, x: nat)
    requires Tree(s, place, foreign) && Canonical(v) && Canonical(x) && Walk(s, v).Stop? && Through(place, Path(x), Walk(s, v).at)
    ensures var o, q := Walk(s, v), Path(x);
      && 1 <= o.level <= 4 && Descend(s, q, s.root, 4, true, true, false) == o && Walk(s, x) == o
      && q[..5 - o.level] == Path(v)[..5 - o.level] && o.at.index == q[4 - o.level]
  {
    hide Tree, Path, EntryValid, WalkFrom, Descend;
    var o, path, q := Walk(s, v), Path(v), Path(x);
    TreeWalk(s, place, foreign, v);
    TreeWalk(s, place, foreign, x);
    StopPlaced(s, place, foreign, path, s.root, 4, true, true, false);
    var k := 5 - o.level;
    assert path[..k - 1] + [path[k - 1]] == path[..k];
    assert q[..k] == path[..k];
    assert q[k - 1] == q[..k][k - 1] == path[..k][k - 1] == path[k - 1];
    StopShared(s, path, q, s.root, 4, true, true, false);
  }

  /** The published entry leads into the chain with all rights. */
  lemma IntoChain(t: Space, frames: seq<Frame>, path: seq<nat>, leaf: Entry, q: seq<nat>, f: Frame, w: bool, u: bool, n: bool)
    requires Chain(t, frames, path, leaf) && |q| == 4 && f in t.reach && At(t.mem, f, q[3 - |frames|]) == Parent(frames[0])
    ensures 1 <= |frames| <= 3 && Descend(t, q, f, |frames| + 1, w, u, n) == Descend(t, q, frames[0], |frames|, w, u, n)
  {
    hide Chain;
    FirstLink(t, frames, path, leaf, |frames| + 1);
  }

  /** Through the published entry: the one page appears, its neighbours under the new tables stay absent. */
  lemma ThroughChain(s: Space, t: Space, place: Places, foreign: set<Frame>, v: nat, frames: seq<Frame>, leaf: Entry, x: nat)
    requires Tree(s, place, foreign) && Published(s, t, place, foreign, v, frames, leaf) && Canonical(x)
    requires Through(place, Path(x), Walk(s, v).at)
    ensures var o, r := Walk(s, v), Descend(t, Path(x), t.root, 4, true, true, false);
      && Walk(s, x) == o && Translate(s, x) == Absent && r.Stop? && 1 <= r.level <= 4
      && (x / PAGE == v / PAGE ==> r == Stop(Loc(frames[|frames| - 1], Path(v)[3]), leaf, 1, o.writable, o.user, o.nx))
      && (x / PAGE != v / PAGE ==> r.value == Zero && r.writable == o.writable && r.user == o.user && r.nx == o.nx)
  {
    hide Tree, AgreesBut, Chain, Path, EntryValid, Fresh, Walk, Descend, Through;
    var o, path, q := Walk(s, v), Path(v), Path(x);
    StopsTogether(s, place, foreign, v, x);
    TreeWalk(s, place, foreign, x);
    DescendHit(s, t, place, foreign, q, s.root, 4, true, true, false);
    assert t.root == s.root by { AgreesRoot(s, t, place, foreign, o.at); }
    IntoChain(t, frames, path, leaf, q, o.at.frame, o.writable, o.user, o.nx);
    ChainDescend(t, frames, path, leaf, q, 0, o.writable, o.user, o.nx);
    if q == path { PathDetermines(v, x); }
    if x / PAGE == v / PAGE { SamePath(v, x); }
  }

  lemma AgreesRoot(s: Space, t: Space, place: Places, foreign: set<Frame>, at: Loc)
    requires AgreesBut(s, t, place, foreign, at)
    ensures t.root == s.root
  {
  }

  lemma FirstLink(t: Space, frames: seq<Frame>, path: seq<nat>, leaf: Entry, level: nat)
    requires Chain(t, frames, path, leaf) && level == |frames| + 1
    ensures 1 <= |frames| <= 3 && Descends(t, Parent(frames[0]), level) && frames[0] in t.reach
  {
  }

  /** The publishing store changes the translation of exactly one page, and takes no right from any walk. */
  lemma PublishTranslate(s: Space, t: Space, place: Places, foreign: set<Frame>, v: nat, frames: seq<Frame>, leaf: Entry, x: nat)
    requires Tree(s, place, foreign) && Published(s, t, place, foreign, v, frames, leaf)
    ensures var o := Walk(s, v);
      Translate(t, x) ==
        if Canonical(x) && x / PAGE == v / PAGE then
          Answered(Stop(Loc(frames[|frames| - 1], Path(v)[3]), leaf, 1, o.writable, o.user, o.nx), x)
        else Translate(s, x)
    ensures leaf.present ==> Gentler(Walk(s, x), Walk(t, x))
  {
    hide Tree, AgreesBut, Chain, Path, Descend, WalkFrom;
    if Canonical(x) {
      assert Walk(t, x) == Descend(t, Path(x), t.root, 4, true, true, false) by {
        FirstLink(t, frames, Path(v), leaf, |frames| + 1);
        PublishTree(s, t, place, foreign, v, frames, leaf);
        TreeWalk(t, Grown(place, frames, Path(v)), foreign, x);
      }
      if Through(place, Path(x), Walk(s, v).at) {
        ThroughChain(s, t, place, foreign, v, frames, leaf, x);
      } else {
        TreeWalk(s, place, foreign, x);
        DescendSame(s, t, place, foreign, Walk(s, v).at, Path(x), s.root, 4, true, true, false);
        assert t.root == s.root by { AgreesRoot(s, t, place, foreign, Walk(s, v).at); }
        assert x / PAGE != v / PAGE by { OwnPathThrough(s, place, foreign, v, x); }
      }
    }
  }

  lemma OwnPathThrough(s: Space, place: Places, foreign: set<Frame>, v: nat, x: nat)
    requires Tree(s, place, foreign) && Canonical(v) && Walk(s, v).Stop?
    ensures x / PAGE == v / PAGE ==> Through(place, Path(x), Walk(s, v).at)
  {
    hide TableOk;
    var o, path := Walk(s, v), Path(v);
    TreeWalk(s, place, foreign, v);
    StopPlaced(s, place, foreign, path, s.root, 4, true, true, false);
    assert path[..4 - o.level] + [path[4 - o.level]] == path[..5 - o.level];
    if x / PAGE == v / PAGE { SamePath(v, x); }
  }
}
