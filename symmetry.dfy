/**
 * The invariant the link engine exists to keep: B lists A as a predecessor
 * exactly when A lists B as a successor, over greetings that exist and have
 * distinct ids.
 */
module Symmetry {
  import opened Types
  import opened IdLists
  import opened Links

  predicate UniqueIds(gs: seq<Greeting>) {
    forall i, j :: 0 <= i < j < |gs| ==> gs[i].id != gs[j].id
  }

  /** The greetings at `a` and `b` agree about the edge a -> b. */
  predicate EdgeAgrees(gs: seq<Greeting>, a: int, b: int)
    requires 0 <= a < |gs| && 0 <= b < |gs|
  {
    gs[b].id in gs[a].successors <==> gs[a].id in gs[b].predecessors
  }

  predicate Symmetric(gs: seq<Greeting>) {
    forall a, b :: 0 <= a < |gs| && 0 <= b < |gs| ==> EdgeAgrees(gs, a, b)
  }

  lemma UniqueIsFirst(gs: seq<Greeting>, k: int)
    requires UniqueIds(gs) && 0 <= k < |gs|
    ensures IsFirst(gs, k)
  {
    var r := FindGreeting(gs, gs[k].id);
    assert r >= 0 ==> gs[r].id == gs[k].id;
  }

  lemma UniqueSameIds(gs: seq<Greeting>, hs: seq<Greeting>)
    requires SameIds(gs, hs) && UniqueIds(gs)
    ensures UniqueIds(hs)
  {
    forall i, j | 0 <= i < j < |hs| ensures hs[i].id != hs[j].id {
      assert gs[i].id != gs[j].id;
    }
  }

  /** A list extended by `gid` or dropped of it, as `Relinked` describes, in terms of membership. */
  lemma RelinkedHas(l: seq<Id>, gid: Id, added: bool, removed: bool, y: Id)
    ensures y in Relinked(l, gid, added, removed) <==>
      if removed then y in l && y != gid else y in l || (added && y == gid)
  {
  }

  /**
   * syncBidirectionalLinks restores symmetry around the greeting at `i`.
   * `m` is the list after the greeting's own record took its new lists (as
   * updateGreeting does before calling it, and addGreeting by appending); if
   * the list was symmetric while the record still had its old lists `s0` and
   * `p0`, it is symmetric after the call.
   */
  lemma SyncPreservesSymmetry(m: seq<Greeting>, i: int, s0: seq<Id>, p0: seq<Id>)
    requires 0 <= i < |m| && UniqueIds(m)
    requires Symmetric(m[i := m[i].(successors := s0, predecessors := p0)])
    ensures Symmetric(SyncLinks(m, m[i].id, s0, m[i].successors, p0, m[i].predecessors, i))
    ensures UniqueIds(SyncLinks(m, m[i].id, s0, m[i].successors, p0, m[i].predecessors, i))
  {
    var x, s1, p1 := m[i].id, m[i].successors, m[i].predecessors;
    var o := m[i := m[i].(successors := s0, predecessors := p0)];
    var r := SyncLinks(m, x, s0, s1, p0, p1, i);
    UniqueSameIds(m, r);
    var addedS, removedS := Difference(s1, s0), Difference(s0, s1);
    UniqueIsFirst(m, i);
    var pNow := if OwnerPushed(m, x, addedS, i) then p1 + [x] else p1;
    var addedP, removedP := Difference(pNow, p0), Difference(p0, pNow);
    forall k | 0 <= k < |m|
      ensures r[k].predecessors == Relinked(m[k].predecessors, x, m[k].id in addedS, m[k].id in removedS)
      ensures r[k].successors == Relinked(m[k].successors, x, m[k].id in addedP, m[k].id in removedP)
    {
      UniqueIsFirst(m, k);
      SyncLinksAt(m, x, s0, s1, p0, p1, i, k);
    }
    forall a, b | 0 <= a < |r| && 0 <= b < |r| ensures EdgeAgrees(r, a, b) {
      assert EdgeAgrees(o, a, b);
      RelinkedHas(m[a].successors, x, m[a].id in addedP, m[a].id in removedP, m[b].id);
      RelinkedHas(m[b].predecessors, x, m[b].id in addedS, m[b].id in removedS, m[a].id);
      if a == i && b == i {
        assert EdgeAgrees(o, i, i);
      } else if a == i {
        assert m[b].id != x;
      } else if b == i {
        assert m[a].id != x;
      } else {
        assert m[a].id != x && m[b].id != x;
      }
    }
  }

  /** Cutting the edge p -> s on both sides keeps the list symmetric. */
  lemma SeverPreservesSymmetry(gs: seq<Greeting>, pi: int, p: Id, s: Id)
    requires UniqueIds(gs) && Symmetric(gs) && 0 <= pi < |gs| && gs[pi].id == p
    ensures UniqueIds(Sever(gs, pi, p, s)) && Symmetric(Sever(gs, pi, p, s))
  {
    var r := Sever(gs, pi, p, s);
    UniqueSameIds(gs, r);
    if s in gs[pi].successors {
      var cut := gs[pi := gs[pi].(successors := Without(gs[pi].successors, s))];
      var si := FindGreeting(cut, s);
      forall a, b | 0 <= a < |r| && 0 <= b < |r| ensures EdgeAgrees(r, a, b) {
        assert EdgeAgrees(gs, a, b);
        if si >= 0 {
          if a == pi && b == si {
          } else if a == pi {
            assert gs[b].id != s;
          } else if b == si {
            assert gs[a].id != p;
          }
        } else {
          assert gs[b].id != s;
        }
      }
    }
  }

  lemma {:induction false} SpliceEachPreservesSymmetry(gs: seq<Greeting>, pi: int, p: Id, successors: seq<Id>)
    requires UniqueIds(gs) && Symmetric(gs) && 0 <= pi < |gs| && gs[pi].id == p
    ensures UniqueIds(SpliceEach(gs, pi, p, successors)) && Symmetric(SpliceEach(gs, pi, p, successors))
    decreases |successors|
  {
    if successors != [] {
      var m := SpliceEach(gs, pi, p, successors[..|successors| - 1]);
      SpliceEachPreservesSymmetry(gs, pi, p, successors[..|successors| - 1]);
      SeverPreservesSymmetry(m, pi, p, successors[|successors| - 1]);
    }
  }

  /** insertBetweenLinks keeps a symmetric list with distinct ids symmetric. */
  lemma {:induction false} InsertBetweenPreservesSymmetry(gs: seq<Greeting>, predecessors: seq<Id>, successors: seq<Id>)
    requires UniqueIds(gs) && Symmetric(gs)
    ensures UniqueIds(InsertBetween(gs, predecessors, successors))
    ensures Symmetric(InsertBetween(gs, predecessors, successors))
    decreases |predecessors|
  {
    if predecessors != [] {
      var m := InsertBetween(gs, predecessors[..|predecessors| - 1], successors);
      InsertBetweenPreservesSymmetry(gs, predecessors[..|predecessors| - 1], successors);
      var q := predecessors[|predecessors| - 1];
      var qi := FindGreeting(m, q);
      if qi >= 0 {
        SpliceEachPreservesSymmetry(m, qi, q, successors);
      }
    }
  }
}
