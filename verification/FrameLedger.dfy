/**
  Fixed-size ledgers of owned frames, as the `pages` and `tables` arrays of struct user_vm keep them
  (kernel/include/utamo/user_vm.h). A slot is vacant or holds one frame with a tag.
*/
module FrameLedger {

  datatype Slot<T> = Vacant | Taken(frame: nat, tag: T)

  ghost function Owned<T>(slots: seq<Slot<T>>): set<nat> {
    set i | 0 <= i < |slots| && slots[i].Taken? :: slots[i].frame
  }

  /** The frame in slot `i` is in no later slot. */
  ghost predicate Unique<T>(slots: seq<Slot<T>>, i: nat)
    requires i < |slots|
  {
    slots[i].Taken? ==> slots[i].frame !in Owned(slots[i + 1..])
  }

  ghost predicate Distinct<T>(slots: seq<Slot<T>>) {
    forall i {:trigger Unique(slots, i)} | 0 <= i < |slots| :: Unique(slots, i)
  }

  lemma OwnedAt<T>(slots: seq<Slot<T>>, i: nat)
    requires i < |slots| && slots[i].Taken?
    ensures slots[i].frame in Owned(slots)
  {
  }

  lemma FramesApart<T>(slots: seq<Slot<T>>, i: nat, j: nat)
    requires Distinct(slots) && i < |slots| && j < |slots| && i != j && slots[i].Taken? && slots[j].Taken?
    ensures slots[i].frame != slots[j].frame
  {
    var lo, hi := if i < j then i else j, if i < j then j else i;
    assert Unique(slots, lo);
    assert slots[lo + 1..][hi - lo - 1] == slots[hi];
    OwnedAt(slots[lo + 1..], hi - lo - 1);
  }

  lemma DistinctFrom<T>(slots: seq<Slot<T>>)
    requires forall i, j | 0 <= i < j < |slots| && slots[i].Taken? && slots[j].Taken? :: slots[i].frame != slots[j].frame
    ensures Distinct(slots)
  {
    forall i {:trigger Unique(slots, i)} | 0 <= i < |slots| ensures Unique(slots, i) {
    }
  }

  /** Filling a vacant slot with a frame not yet owned. */
  lemma Fill<T>(slots: seq<Slot<T>>, i: nat, f: nat, tag: T)
    requires Distinct(slots) && i < |slots| && slots[i].Vacant? && f !in Owned(slots)
    ensures Distinct(slots[i := Taken(f, tag)]) && Owned(slots[i := Taken(f, tag)]) == Owned(slots) + {f}
  {
    var r := slots[i := Taken(f, tag)];
    assert Owned(r) == Owned(slots) + {f} by {
      forall g | g in Owned(slots) ensures g in Owned(r) {
        var k :| 0 <= k < |slots| && slots[k].Taken? && slots[k].frame == g;
        assert r[k] == slots[k];
      }
      assert r[i].frame == f;
    }
    forall j, k | 0 <= j < k < |r| && r[j].Taken? && r[k].Taken? ensures r[j].frame != r[k].frame {
      if j != i && k != i { FramesApart(slots, j, k); }
    }
    DistinctFrom(r);
  }

  /** Vacating a slot gives up exactly its frame. */
  lemma Vacate<T>(slots: seq<Slot<T>>, i: nat)
    requires Distinct(slots) && i < |slots| && slots[i].Taken?
    ensures Distinct(slots[i := Vacant]) && Owned(slots[i := Vacant]) == Owned(slots) - {slots[i].frame}
  {
    var r, f := slots[i := Vacant], slots[i].frame;
    forall g | g in Owned(slots) && g != f ensures g in Owned(r) {
      var k :| 0 <= k < |slots| && slots[k].Taken? && slots[k].frame == g;
      assert r[k] == slots[k];
    }
    forall k | 0 <= k < |r| && r[k].Taken? ensures r[k].frame != f && r[k].frame in Owned(slots) {
      FramesApart(slots, i, k);
    }
    forall j, k | 0 <= j < k < |r| && r[j].Taken? && r[k].Taken? ensures r[j].frame != r[k].frame { FramesApart(slots, j, k); }
    DistinctFrom(r);
  }

  lemma Retag<T>(slots: seq<Slot<T>>, i: nat, tag: T)
    requires Distinct(slots) && i < |slots| && slots[i].Taken?
    ensures Distinct(slots[i := slots[i].(tag := tag)]) && Owned(slots[i := slots[i].(tag := tag)]) == Owned(slots)
  {
    var r := slots[i := slots[i].(tag := tag)];
    forall g ensures g in Owned(slots) <==> g in Owned(r) {
      if g in Owned(slots) {
        var k :| 0 <= k < |slots| && slots[k].Taken? && slots[k].frame == g;
        assert r[k].frame == g;
      }
    }
    forall j, k | 0 <= j < k < |r| && r[j].Taken? && r[k].Taken? ensures r[j].frame != r[k].frame { FramesApart(slots, j, k); }
    DistinctFrom(r);
  }

  /** A full ledger owns as many frames as it has slots. */
  lemma {:induction false} FullSize<T>(slots: seq<Slot<T>>)
    requires Distinct(slots) && forall i | 0 <= i < |slots| :: slots[i].Taken?
    ensures |Owned(slots)| == |slots|
  {
    if slots == [] {
      assert Owned(slots) == {};
    } else {
      Prefix(slots, |slots| - 1);
      FullSize(slots[..|slots| - 1]);
    }
  }

  /** Owned frames of a prefix, one slot at a time. */
  lemma Prefix<T>(slots: seq<Slot<T>>, k: nat)
    requires Distinct(slots) && k < |slots|
    ensures Distinct(slots[..k])
    ensures slots[k].Taken? ==> slots[k].frame !in Owned(slots[..k]) && Owned(slots[..k + 1]) == Owned(slots[..k]) + {slots[k].frame}
    ensures slots[k].Vacant? ==> Owned(slots[..k + 1]) == Owned(slots[..k])
    ensures k + 1 == |slots| ==> slots[..k + 1] == slots
  {
    var p, r := slots[..k], slots[..k + 1];
    forall i, j | 0 <= i < j < |p| && p[i].Taken? && p[j].Taken? ensures p[i].frame != p[j].frame { FramesApart(slots, i, j); }
    DistinctFrom(p);
    forall i | 0 <= i < k && slots[k].Taken? && p[i].Taken? ensures p[i].frame != slots[k].frame { FramesApart(slots, i, k); }
    forall g | g in Owned(p) ensures g in Owned(r) {
      var i :| 0 <= i < |p| && p[i].Taken? && p[i].frame == g;
      assert r[i] == p[i];
    }
    forall g | g in Owned(r) && !(slots[k].Taken? && g == slots[k].frame) ensures g in Owned(p) {
      var i :| 0 <= i < |r| && r[i].Taken? && r[i].frame == g;
      assert p[i] == r[i];
    }
    if slots[k].Taken? { assert r[k] == slots[k]; }
  }

  lemma Suffix<T>(slots: seq<Slot<T>>, k: nat)
    requires Distinct(slots) && k < |slots|
    ensures slots[k].Taken? ==> slots[k].frame !in Owned(slots[k + 1..]) && Owned(slots[k..]) == Owned(slots[k + 1..]) + {slots[k].frame}
    ensures slots[k].Vacant? ==> Owned(slots[k..]) == Owned(slots[k + 1..])
  {
    var p, r := slots[k + 1..], slots[k..];
    assert Unique(slots, k);
    forall g | g in Owned(p) ensures g in Owned(r) {
      var i :| 0 <= i < |p| && p[i].Taken? && p[i].frame == g;
      assert r[i + 1] == p[i];
    }
    forall g | g in Owned(r) && !(slots[k].Taken? && g == slots[k].frame) ensures g in Owned(p) {
      var i :| 0 <= i < |r| && r[i].Taken? && r[i].frame == g;
      assert p[i - 1] == r[i];
    }
    if slots[k].Taken? { assert r[0] == slots[k]; }
  }

  /** How many slots are taken. */
  ghost function Count<T>(slots: seq<Slot<T>>): nat {
    if slots == [] then 0 else Count(slots[..|slots| - 1]) + if slots[|slots| - 1].Taken? then 1 else 0
  }

  lemma CountMore<T>(slots: seq<Slot<T>>, k: nat)
    requires k < |slots|
    ensures Count(slots[..k + 1]) == Count(slots[..k]) + if slots[k].Taken? then 1 else 0
  {
    assert slots[..k + 1][..k] == slots[..k];
  }

  /** Distinct frames: as many as taken slots. */
  lemma {:induction false} CountOwned<T>(slots: seq<Slot<T>>)
    requires Distinct(slots)
    ensures Count(slots) == |Owned(slots)|
  {
    if slots == [] {
      assert Owned(slots) == {};
    } else {
      Prefix(slots, |slots| - 1);
      CountOwned(slots[..|slots| - 1]);
    }
  }

  /** The first vacant slot at or after `from`, or the length. */
  method FirstVacant<T>(slots: seq<Slot<T>>, from: nat) returns (i: nat)
    requires from <= |slots|
    ensures from <= i <= |slots| && (i < |slots| ==> slots[i].Vacant?)
    ensures forall j | from <= j < i :: slots[j].Taken?
  {
    i := from;
    while i < |slots| && slots[i].Taken?
      invariant from <= i <= |slots| && forall j | from <= j < i :: slots[j].Taken?
    {
      i := i + 1;
    }
  }

  method FindFrame<T>(slots: seq<Slot<T>>, f: nat) returns (i: nat)
    ensures i <= |slots| && (i < |slots| <==> f in Owned(slots))
    ensures i < |slots| ==> slots[i].Taken? && slots[i].frame == f
  {
    i := 0;
    while i < |slots|
      invariant i <= |slots| && forall j | 0 <= j < i && slots[j].Taken? :: slots[j].frame != f
    {
      if slots[i].Taken? && slots[i].frame == f { return; }
      i := i + 1;
    }
  }
}
