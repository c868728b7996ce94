/**
  Tree-shaped page tables: every table is reached along one path of indices. On such a space a store into an entry
  concerns only the addresses whose path runs through it, and tables nobody links to concern no address at all.
*/
module VmmTree {
  import opened MemoryMap
  import opened PageTable

  /** The path of indices that leads to each table. */
  type Places = map<Frame, seq<nat>>

  predicate Descends(s: Space, e: Entry, level: nat) { e.present && EntryOk(s, e, level) && !Stops(e, level) }

  function LevelOf(place: Places, f: Frame): int
    requires f in place
  {
    4 - |place[f]|
  }

  /** An entry leads to the table placed one index further, or to a foreign table this space may not enter. */
  ghost predicate ChildOk(s: Space, place: Places, foreign: set<Frame>, f: Frame, i: nat)
    requires f in place && |place[f]| <= 3
  {
    var e := At(s.mem, f, i);
    Descends(s, e, LevelOf(place, f)) ==>
      e.frame in foreign || (e.frame in place && place[e.frame] == place[f] + [i])
  }

  ghost predicate TableOk(s: Space, place: Places, foreign: set<Frame>, f: Frame)
    requires f in place
  {
    |place[f]| <= 3 && forall i {:trigger ChildOk(s, place, foreign, f, i)} | 0 <= i < 512 :: ChildOk(s, place, foreign, f, i)
  }

  ghost predicate Tree(s: Space, place: Places, foreign: set<Frame>) {
    && s.root in place && place[s.root] == []
    && place.Keys <= s.reach && s.reach !! foreign
    && forall f {:trigger TableOk(s, place, foreign, f)} | f in place :: TableOk(s, place, foreign, f)
  }

  // ---------------------------------------------------------------- walking a tree

  /** A walk without the check for revisited tables. */
  ghost function Descend(s: Space, path: seq<nat>, f: Frame, level: nat, w: bool, u: bool, n: bool): Outcome
    requires |path| == 4 && 1 <= level <= 4
    decreases level
  {
    if f !in s.reach then Unsafe
    else
      var i := path[4 - level];
      var e := At(s.mem, f, i);
      if e.present && !EntryOk(s, e, level) then Unsafe
      else if Stops(e, level) then Stop(Loc(f, i), e, level, w, u, n)
      else Descend(s, path, e.frame, level - 1, w && e.writable, u && e.user, n || e.nx)
  }

  ghost predicate Indices(path: seq<nat>) { |path| == 4 && forall i | 0 <= i < 4 :: path[i] < 512 }

  /** `f` is the table this path reaches at this level, or one outside the space. */
  ghost predicate OnPath(place: Places, foreign: set<Frame>, path: seq<nat>, f: Frame, level: nat)
    requires |path| == 4 && 1 <= level <= 4
  {
    f in foreign || (f in place && place[f] == path[..4 - level])
  }

  lemma NextOnPath(s: Space, place: Places, foreign: set<Frame>, path: seq<nat>, f: Frame, level: nat)
    requires Tree(s, place, foreign) && Indices(path) && 1 < level <= 4
    requires f in s.reach && OnPath(place, foreign, path, f, level)
    requires Descends(s, At(s.mem, f, path[4 - level]), level)
    ensures f in place && OnPath(place, foreign, path, At(s.mem, f, path[4 - level]).frame, level - 1)
  {
    var i := path[4 - level];
    assert TableOk(s, place, foreign, f);
    assert ChildOk(s, place, foreign, f, i);
    assert path[..4 - level] + [i] == path[..4 - (level - 1)];
  }

  /** Tables already passed lie strictly above. */
  ghost predicate Above(place: Places, seen: set<Frame>, level: nat) {
    forall g | g in seen :: g in place && |place[g]| < 4 - level
  }

  lemma {:induction false} NoRevisit(s: Space, place: Places, foreign: set<Frame>, path: seq<nat>, f: Frame, level: nat,
                                     seen: set<Frame>, w: bool, u: bool, n: bool)
    requires Tree(s, place, foreign) && Indices(path) && 1 <= level <= 4
    requires OnPath(place, foreign, path, f, level) && Above(place, seen, level)
    ensures WalkFrom(s, path, f, level, seen, w, u, n) == Descend(s, path, f, level, w, u, n)
    decreases level
  {
    hide TableOk;
    var e := At(s.mem, f, path[4 - level]);
    if f in s.reach && Descends(s, e, level) {
      NextOnPath(s, place, foreign, path, f, level);
      NoRevisit(s, place, foreign, path, e.frame, level - 1, seen + {f}, w && e.writable, u && e.user, n || e.nx);
    }
  }

  lemma TreeWalk(s: Space, place: Places, foreign: set<Frame>, v: nat)
    requires Tree(s, place, foreign) && Canonical(v)
    ensures Walk(s, v) == Descend(s, Path(v), s.root, 4, true, true, false)
    ensures Indices(Path(v)) && OnPath(place, foreign, Path(v), s.root, 4)
  {
    assert Path(v)[..0] == [];
    NoRevisit(s, place, foreign, Path(v), s.root, 4, {}, true, true, false);
  }

  /** A walk stops in the table its path leads to. */
  lemma {:induction false} StopPlaced(s: Space, place: Places, foreign: set<Frame>, path: seq<nat>, f: Frame, level: nat,
                                      w: bool, u: bool, n: bool)
    requires Tree(s, place, foreign) && Indices(path) && 1 <= level <= 4 && OnPath(place, foreign, path, f, level)
    ensures var o := Descend(s, path, f, level, w, u, n);
      o.Stop? ==>
        && 1 <= o.level <= level && o.at.frame in place && place[o.at.frame] == path[..4 - o.level]
        && o.at.index == path[4 - o.level] && o.value == At(s.mem, o.at.frame, o.at.index) && Stops(o.value, o.level)
        && (o.value.present ==> EntryOk(s, o.value, o.level))
    decreases level
  {
    hide TableOk;
    var e := At(s.mem, f, path[4 - level]);
    if f in s.reach && Descends(s, e, level) {
      NextOnPath(s, place, foreign, path, f, level);
      StopPlaced(s, place, foreign, path, e.frame, level - 1, w && e.writable, u && e.user, n || e.nx);
    }
  }

  // ---------------------------------------------------------------- stores

  /** `t` is a space over the same tables, which differ at most in the entry `at`. */
  ghost predicate AgreesBut(s: Space, t: Space, place: Places, foreign: set<Frame>, at: Loc) {
    && t.root == s.root && t.limit == s.limit && t.nx == s.nx
    && place.Keys <= t.reach && t.reach !! foreign
    && forall f, i {:trigger At(t.mem, f, i)} | f in place && 0 <= i < 512 && Loc(f, i) != at :: At(t.mem, f, i) == At(s.mem, f, i)
  }

  /** The path runs through the entry `at`. */
  ghost predicate Through(place: Places, path: seq<nat>, at: Loc)
    requires |path| == 4
  {
    at.frame in place && |place[at.frame]| <= 3 && place[at.frame] + [at.index] == path[..|place[at.frame]| + 1]
  }

  lemma OffPath(place: Places, path: seq<nat>, at: Loc, f: Frame, level: nat)
    requires Indices(path) && 1 <= level <= 4 && f in place && place[f] == path[..4 - level] && !Through(place, path, at)
    ensures Loc(f, path[4 - level]) != at
  {
    assert place[f] + [path[4 - level]] == path[..4 - level + 1];
  }

  lemma SameHere(s: Space, t: Space, place: Places, foreign: set<Frame>, at: Loc, path: seq<nat>, f: Frame, level: nat)
    requires Tree(s, place, foreign) && AgreesBut(s, t, place, foreign, at) && Indices(path) && !Through(place, path, at)
    requires 1 <= level <= 4 && OnPath(place, foreign, path, f, level)
    ensures s.limit == t.limit && s.nx == t.nx && (f in s.reach <==> f in t.reach)
    ensures f in s.reach ==> At(t.mem, f, path[4 - level]) == At(s.mem, f, path[4 - level])
  {
    hide TableOk, Through;
    if f in s.reach { OffPath(place, path, at, f, level); }
  }

  lemma {:induction false} DescendSame(s: Space, t: Space, place: Places, foreign: set<Frame>, at: Loc,
                                       path: seq<nat>, f: Frame, level: nat, w: bool, u: bool, n: bool)
    requires Tree(s, place, foreign) && AgreesBut(s, t, place, foreign, at) && Indices(path) && !Through(place, path, at)
    requires 1 <= level <= 4 && OnPath(place, foreign, path, f, level)
    ensures Descend(t, path, f, level, w, u, n) == Descend(s, path, f, level, w, u, n)
    decreases level
  {
    hide Tree, AgreesBut, Through, OnPath, EntryValid;
    SameHere(s, t, place, foreign, at, path, f, level);
    if f in s.reach {
      var e := At(s.mem, f, path[4 - level]);
      if Descends(s, e, level) {
        NextOnPath(s, place, foreign, path, f, level);
        DescendSame(s, t, place, foreign, at, path, e.frame, level - 1, w && e.writable, u && e.user, n || e.nx);
      }
    }
  }

  /** Above where a walk stops, the entries are the same. */
  lemma HitAbove(s: Space, t: Space, place: Places, foreign: set<Frame>, path: seq<nat>, f: Frame, level: nat, at: Loc)
    requires Indices(path) && 1 <= level <= 4 && f in place && place[f] == path[..4 - level]
    requires at.frame in place && |place[at.frame]| > 4 - level && AgreesBut(s, t, place, foreign, at)
    ensures At(t.mem, f, path[4 - level]) == At(s.mem, f, path[4 - level]) && f in t.reach
  {
  }

  /** Replacing the entry a walk stopped at: the walk arrives there with the same rights. */
  lemma {:induction false} DescendHit(s: Space, t: Space, place: Places, foreign: set<Frame>,
                                      path: seq<nat>, f: Frame, level: nat, w: bool, u: bool, n: bool)
    requires Tree(s, place, foreign) && Indices(path) && 1 <= level <= 4 && OnPath(place, foreign, path, f, level)
    requires Descend(s, path, f, level, w, u, n).Stop?
    requires AgreesBut(s, t, place, foreign, Descend(s, path, f, level, w, u, n).at)
    ensures var o := Descend(s, path, f, level, w, u, n);
      && 1 <= o.level <= 4 && o.at.frame in t.reach
      && Descend(t, path, f, level, w, u, n) == Descend(t, path, o.at.frame, o.level, o.writable, o.user, o.nx)
    decreases level
  {
    hide Tree, AgreesBut, OnPath, EntryValid;
    StopPlaced(s, place, foreign, path, f, level, w, u, n);
    var o, e := Descend(s, path, f, level, w, u, n), At(s.mem, f, path[4 - level]);
    assert o.at.frame in t.reach && s.limit == t.limit && s.nx == t.nx by { AgreesReach(s, t, place, foreign, o.at); }
    if Descends(s, e, level) {
      NextOnPath(s, place, foreign, path, f, level);
      StopPlaced(s, place, foreign, path, e.frame, level - 1, w && e.writable, u && e.user, n || e.nx);
      assert place[f] == path[..4 - level] by { PlacedHere(s, place, foreign, path, f, level); }
      HitAbove(s, t, place, foreign, path, f, level, o.at);
      DescendHit(s, t, place, foreign, path, e.frame, level - 1, w && e.writable, u && e.user, n || e.nx);
    }
  }

  lemma AgreesReach(s: Space, t: Space, place: Places, foreign: set<Frame>, at: Loc)
    requires AgreesBut(s, t, place, foreign, at) && at.frame in place
    ensures at.frame in t.reach && s.limit == t.limit && s.nx == t.nx
  {
  }

  lemma PlacedHere(s: Space, place: Places, foreign: set<Frame>, path: seq<nat>, f: Frame, level: nat)
    requires Tree(s, place, foreign) && Indices(path) && 1 <= level <= 4 && OnPath(place, foreign, path, f, level) && f in s.reach
    ensures f in place && place[f] == path[..4 - level]
  {
  }

  lemma AgreesTree(s: Space, t: Space, place: Places, foreign: set<Frame>, at: Loc)
    requires Tree(s, place, foreign) && AgreesBut(s, t, place, foreign, at)
    requires at.frame in place && 0 <= at.index < 512 ==> |place[at.frame]| <= 3 && ChildOk(t, place, foreign, at.frame, at.index)
    ensures Tree(t, place, foreign)
  {
    forall f {:trigger TableOk(t, place, foreign, f)} | f in place ensures TableOk(t, place, foreign, f) {
      assert TableOk(s, place, foreign, f);
      forall i {:trigger ChildOk(t, place, foreign, f, i)} | 0 <= i < 512 ensures ChildOk(t, place, foreign, f, i) {
        assert ChildOk(s, place, foreign, f, i);
        assert Loc(f, i) != at ==> At(t.mem, f, i) == At(s.mem, f, i);
      }
    }
  }

  /** An address whose path avoids the changed entry keeps its translation. */
  lemma TranslateSame(s: Space, t: Space, place: Places, foreign: set<Frame>, at: Loc, x: nat)
    requires Tree(s, place, foreign) && Tree(t, place, foreign) && AgreesBut(s, t, place, foreign, at)
    requires !Through(place, Path(x), at)
    ensures Walk(t, x) == Walk(s, x) && Translate(t, x) == Translate(s, x)
  {
    hide Tree;
    if Canonical(x) {
      TreeWalk(s, place, foreign, x);
      TreeWalk(t, place, foreign, x);
      DescendSame(s, t, place, foreign, at, Path(x), s.root, 4, true, true, false);
    }
  }

  /** Whatever happens to tables no placed table links to, nothing is seen of it. */
  lemma Private(s: Space, t: Space, place: Places, foreign: set<Frame>, at: Loc)
    requires Tree(s, place, foreign) && AgreesBut(s, t, place, foreign, at) && at.frame !in place
    ensures Tree(t, place, foreign) && SameTranslation(s, t) && Gentle(s, t)
  {
    AgreesTree(s, t, place, foreign, at);
    hide Tree, AgreesBut, Translate, Walk;
    forall x: nat {:trigger Translate(t, x)} ensures Translate(t, x) == Translate(s, x) { TranslateSame(s, t, place, foreign, at, x); }
    forall x: nat {:trigger Walk(t, x)} ensures Gentler(Walk(s, x), Walk(t, x)) { TranslateSame(s, t, place, foreign, at, x); }
  }

  /** `t` is a space in which every placed table reads as in `s`. */
  ghost predicate Quiet(s: Space, t: Space, place: Places, foreign: set<Frame>) {
    && t.root == s.root && t.limit == s.limit && t.nx == s.nx
    && place.Keys <= t.reach && t.reach !! foreign
    && forall f, i {:trigger At(t.mem, f, i)} | f in place && 0 <= i < 512 :: At(t.mem, f, i) == At(s.mem, f, i)
  }

  lemma QuietSame(s: Space, t: Space, place: Places, foreign: set<Frame>)
    requires Tree(s, place, foreign) && Quiet(s, t, place, foreign)
    ensures Tree(t, place, foreign) && SameTranslation(s, t) && Gentle(s, t)
  {
    hide Tree;
    var f := Outside(place.Keys);
    Private(s, t, place, foreign, Loc(f, 0));
  }

  lemma {:induction false} Outside(frames: set<Frame>) returns (f: Frame)
    ensures f !in frames && forall g | g in frames :: g < f
  {
    f := 0;
    if frames != {} {
      var g :| g in frames;
      var h := Outside(frames - {g});
      f := if g < h then h else g + 1;
      assert forall x | x in frames :: x == g || x in frames - {g};
    }
  }

  /** A path through the entry a walk of `v` stopped at, at level 1, is the path of `v`. */
  lemma LeafPath(place: Places, v: nat, x: nat, at: Loc)
    requires at.frame in place && place[at.frame] == Path(v)[..3] && at.index == Path(v)[3] && Canonical(v) && Canonical(x)
    ensures Through(place, Path(x), at) <==> x / PAGE == v / PAGE
  {
    assert Path(v)[..3] + [Path(v)[3]] == Path(v);
    assert Path(x)[..4] == Path(x);
    if x / PAGE == v / PAGE { SamePath(v, x); }
    if Through(place, Path(x), at) { PathDetermines(v, x); }
  }

  ghost predicate LeafChange(s: Space, t: Space, place: Places, foreign: set<Frame>, v: nat, e: Entry) {
    var o := Walk(s, v);
    && Canonical(v) && o.Stop? && o.level == 1 && AgreesBut(s, t, place, foreign, o.at)
    && At(t.mem, o.at.frame, o.at.index) == e && (e.present ==> EntryOk(s, e, 1))
  }

  /** Replacing a level-1 entry changes the translation of exactly one 4 KiB page. */
  lemma LeafStore(s: Space, t: Space, place: Places, foreign: set<Frame>, v: nat, e: Entry, x: nat)
    requires Tree(s, place, foreign) && LeafChange(s, t, place, foreign, v, e)
    ensures Tree(t, place, foreign)
    ensures var o := Walk(s, v);
      && Walk(t, x) == (if Canonical(x) && x / PAGE == v / PAGE then o.(value := e) else Walk(s, x))
      && Translate(t, x) == (if Canonical(x) && x / PAGE == v / PAGE then Answered(o.(value := e), x) else Translate(s, x))
  {
    var o := Walk(s, v);
    TreeWalk(s, place, foreign, v);
    StopPlaced(s, place, foreign, Path(v), s.root, 4, true, true, false);
    AgreesTree(s, t, place, foreign, o.at);
    hide Tree;
    if Canonical(x) {
      LeafPath(place, v, x, o.at);
      if x / PAGE == v / PAGE {
        SamePath(v, x);
        TreeWalk(t, place, foreign, x);
        DescendHit(s, t, place, foreign, Path(v), s.root, 4, true, true, false);
        assert Walk(t, x) == Descend(t, Path(v), o.at.frame, 1, o.writable, o.user, o.nx) == o.(value := e);
      } else {
        TranslateSame(s, t, place, foreign, o.at, x);
      }
    }
  }

  lemma WalkSamePage(s: Space, v: nat, x: nat)
    requires Canonical(v) && Canonical(x) && x / PAGE == v / PAGE
    ensures Walk(s, x) == Walk(s, v)
  {
    hide WalkFrom, Path;
    SamePath(v, x);
  }

  lemma LeafGentle(s: Space, t: Space, place: Places, foreign: set<Frame>, v: nat, e: Entry)
    requires Tree(s, place, foreign) && LeafChange(s, t, place, foreign, v, e) && (e.present || e == Zero)
    ensures Gentle(s, t)
  {
    hide Tree, AgreesBut, EntryValid, Translate, Walk, Canonical, Path;
    forall x: nat {:trigger Walk(t, x)} ensures Gentler(Walk(s, x), Walk(t, x)) {
      LeafStore(s, t, place, foreign, v, e, x);
      if Canonical(x) && x / PAGE == v / PAGE { WalkSamePage(s, v, x); }
    }
  }
}
