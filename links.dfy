/**
 * The link-consistency engine as functions on the greeting list: the steps
 * of syncBidirectionalLinks and insertBetweenLinks, the loops over them, and
 * what each leaves at every position of the list.
 *
 * Every loop of the source walks a list of ids and, for each, edits the
 * greeting `find` returns for it. The folds below are written over the last
 * element, so that `Fold(gs, ts[..i])` is the state after `i` iterations.
 */
module Links {
  import opened Types
  import opened IdLists

  /** `findIndex(g => g.id === id)`: the first position holding `id`, or -1. */
  function FindGreeting(gs: seq<Greeting>, id: Id): (r: int)
    ensures -1 <= r < |gs|
    ensures 0 <= r ==> gs[r].id == id && forall j :: 0 <= j < r ==> gs[j].id != id
    ensures r == -1 ==> forall j :: 0 <= j < |gs| ==> gs[j].id != id
  {
    if gs == [] then -1
    else if gs[0].id == id then 0
    else
      var r := FindGreeting(gs[1..], id);
      if r == -1 then -1 else r + 1
  }

  /** The two lists hold the same ids at the same positions. */
  predicate SameIds(gs: seq<Greeting>, hs: seq<Greeting>) {
    |gs| == |hs| && forall j :: 0 <= j < |gs| ==> gs[j].id == hs[j].id
  }

  lemma FindSameIds(gs: seq<Greeting>, hs: seq<Greeting>, id: Id)
    requires SameIds(gs, hs)
    ensures FindGreeting(gs, id) == FindGreeting(hs, id)
  {
    var r1, r2 := FindGreeting(gs, id), FindGreeting(hs, id);
    if r1 >= 0 {
      assert hs[r1].id == id;
    }
    if r2 >= 0 {
      assert gs[r2].id == id;
    }
  }

  /** Position `k` is where `find` lands for the id stored at `k`. */
  predicate IsFirst(gs: seq<Greeting>, k: int)
    requires 0 <= k < |gs|
  {
    FindGreeting(gs, gs[k].id) == k
  }

  /** Position `k` is what `find` returns for one of `targets`. */
  predicate Targeted(gs: seq<Greeting>, k: int, targets: seq<Id>)
    requires 0 <= k < |gs|
  {
    IsFirst(gs, k) && gs[k].id in targets
  }

  lemma TargetedSameIds(gs: seq<Greeting>, hs: seq<Greeting>, k: int, targets: seq<Id>)
    requires SameIds(gs, hs) && 0 <= k < |gs|
    ensures Targeted(gs, k, targets) == Targeted(hs, k, targets)
  {
    FindSameIds(gs, hs, gs[k].id);
  }

  datatype Side = Predecessors | Successors

  function LinkList(g: Greeting, side: Side): seq<Id> {
    match side
    case Predecessors => g.predecessors
    case Successors => g.successors
  }

  function WithLinks(g: Greeting, side: Side, l: seq<Id>): (r: Greeting)
    ensures LinkList(r, side) == l && r.id == g.id
  {
    match side
    case Predecessors => g.(predecessors := l)
    case Successors => g.(successors := l)
  }

  /** One iteration of an "added" loop: the greeting found for `target`, if any, gains `gid` on `side` unless it lists it already. */
  function LinkTo(gs: seq<Greeting>, side: Side, gid: Id, target: Id): (r: seq<Greeting>)
    ensures SameIds(gs, r)
  {
    var k := FindGreeting(gs, target);
    if k >= 0 && gid !in LinkList(gs[k], side) then
      gs[k := WithLinks(gs[k], side, LinkList(gs[k], side) + [gid])]
    else gs
  }

  /** One iteration of a "removed" loop: the greeting found for `target`, if any, loses every `gid` on `side`. */
  function UnlinkFrom(gs: seq<Greeting>, side: Side, gid: Id, target: Id): (r: seq<Greeting>)
    ensures SameIds(gs, r)
  {
    var k := FindGreeting(gs, target);
    if k >= 0 then gs[k := WithLinks(gs[k], side, Without(LinkList(gs[k], side), gid))] else gs
  }

  function LinkEach(gs: seq<Greeting>, side: Side, gid: Id, targets: seq<Id>): (r: seq<Greeting>)
    ensures SameIds(gs, r)
    decreases |targets|
  {
    if targets == [] then gs
    else LinkTo(LinkEach(gs, side, gid, targets[..|targets| - 1]), side, gid, targets[|targets| - 1])
  }

  function UnlinkEach(gs: seq<Greeting>, side: Side, gid: Id, targets: seq<Id>): (r: seq<Greeting>)
    ensures SameIds(gs, r)
    decreases |targets|
  {
    if targets == [] then gs
    else UnlinkFrom(UnlinkEach(gs, side, gid, targets[..|targets| - 1]), side, gid, targets[|targets| - 1])
  }

  /**
   * After an "added" loop, exactly the greetings found for some target gained
   * `gid`, once, and only if they did not list it already; nothing else changed.
   */
  lemma {:induction false} LinkEachAt(gs: seq<Greeting>, side: Side, gid: Id, targets: seq<Id>, k: int)
    requires 0 <= k < |gs|
    ensures LinkEach(gs, side, gid, targets)[k] ==
      if Targeted(gs, k, targets) && gid !in LinkList(gs[k], side)
      then WithLinks(gs[k], side, LinkList(gs[k], side) + [gid])
      else gs[k]
    decreases |targets|
  {
    if targets != [] {
      var init, t := targets[..|targets| - 1], targets[|targets| - 1];
      assert targets == init + [t];
      var m := LinkEach(gs, side, gid, init);
      LinkEachAt(gs, side, gid, init, k);
      FindSameIds(gs, m, t);
      FindSameIds(gs, m, gs[k].id);
      var r := LinkTo(m, side, gid, t);
      assert LinkEach(gs, side, gid, targets) == r;
      if FindGreeting(m, t) == k {
        assert Targeted(gs, k, targets);
        if gid !in LinkList(gs[k], side) && !Targeted(gs, k, init) {
          assert r[k] == WithLinks(m[k], side, LinkList(m[k], side) + [gid]);
        } else {
          assert r[k] == m[k];
        }
      } else {
        assert r[k] == m[k];
        assert Targeted(gs, k, targets) == Targeted(gs, k, init);
      }
    }
  }

  /** After a "removed" loop, exactly the greetings found for some target lost every `gid`; nothing else changed. */
  lemma {:induction false} UnlinkEachAt(gs: seq<Greeting>, side: Side, gid: Id, targets: seq<Id>, k: int)
    requires 0 <= k < |gs|
    ensures UnlinkEach(gs, side, gid, targets)[k] ==
      if Targeted(gs, k, targets)
      then WithLinks(gs[k], side, Without(LinkList(gs[k], side), gid))
      else gs[k]
    decreases |targets|
  {
    if targets != [] {
      var init, t := targets[..|targets| - 1], targets[|targets| - 1];
      assert targets == init + [t];
      var m := UnlinkEach(gs, side, gid, init);
      UnlinkEachAt(gs, side, gid, init, k);
      FindSameIds(gs, m, t);
      FindSameIds(gs, m, gs[k].id);
      var r := UnlinkFrom(m, side, gid, t);
      assert UnlinkEach(gs, side, gid, targets) == r;
      if FindGreeting(m, t) == k {
        assert Targeted(gs, k, targets);
        assert r[k] == WithLinks(m[k], side, Without(LinkList(m[k], side), gid));
        assert gid !in Without(LinkList(gs[k], side), gid);
      } else {
        assert r[k] == m[k];
        assert Targeted(gs, k, targets) == Targeted(gs, k, init);
      }
    }
  }

  /**
   * syncBidirectionalLinks receives the owner's own predecessors array as
   * `newPredecessors`. When the successor phase pushes `gid` onto that array
   * (the owner lists itself as a new successor), the predecessor phase sees
   * the push. `owner` is the position of the record whose arrays were passed.
   */
  predicate OwnerPushed(gs: seq<Greeting>, gid: Id, addedSuccessors: seq<Id>, owner: int) {
    0 <= owner < |gs| && Targeted(gs, owner, addedSuccessors) && gid !in gs[owner].predecessors
  }

  /** The state syncBidirectionalLinks leaves, phase by phase. */
  function SyncLinks(gs: seq<Greeting>, gid: Id, oldSuccessors: seq<Id>, newSuccessors: seq<Id>,
                     oldPredecessors: seq<Id>, newPredecessors: seq<Id>, owner: int): (r: seq<Greeting>)
    ensures SameIds(gs, r)
  {
    var addedSuccessors := Difference(newSuccessors, oldSuccessors);
    var removedSuccessors := Difference(oldSuccessors, newSuccessors);
    var mid := UnlinkEach(LinkEach(gs, Predecessors, gid, addedSuccessors), Predecessors, gid, removedSuccessors);
    var predecessorsNow := if OwnerPushed(gs, gid, addedSuccessors, owner) then newPredecessors + [gid] else newPredecessors;
    var addedPredecessors := Difference(predecessorsNow, oldPredecessors);
    var removedPredecessors := Difference(oldPredecessors, predecessorsNow);
    UnlinkEach(LinkEach(mid, Successors, gid, addedPredecessors), Successors, gid, removedPredecessors)
  }

  /** A list after one phase pair: dropped of `gid` when removal targeted it, else extended by `gid` when addition targeted it and it lacked `gid`. */
  function Relinked(l: seq<Id>, gid: Id, added: bool, removed: bool): seq<Id> {
    if removed then Without(l, gid)
    else if added && gid !in l then l + [gid]
    else l
  }

  /**
   * What syncBidirectionalLinks does to each greeting: only its two link
   * lists change, each by adding or removing `gid` as the differences between
   * the old and new lists direct.
   */
  lemma SyncLinksAt(gs: seq<Greeting>, gid: Id, oldSuccessors: seq<Id>, newSuccessors: seq<Id>,
                    oldPredecessors: seq<Id>, newPredecessors: seq<Id>, owner: int, k: int)
    requires 0 <= k < |gs|
    ensures
      var r := SyncLinks(gs, gid, oldSuccessors, newSuccessors, oldPredecessors, newPredecessors, owner);
      var addedSuccessors := Difference(newSuccessors, oldSuccessors);
      var predecessorsNow := if OwnerPushed(gs, gid, addedSuccessors, owner) then newPredecessors + [gid] else newPredecessors;
      && r[k].predecessors == Relinked(gs[k].predecessors, gid, Targeted(gs, k, addedSuccessors),
                                        Targeted(gs, k, Difference(oldSuccessors, newSuccessors)))
      && r[k].successors == Relinked(gs[k].successors, gid, Targeted(gs, k, Difference(predecessorsNow, oldPredecessors)),
                                      Targeted(gs, k, Difference(oldPredecessors, predecessorsNow)))
      && r[k] == gs[k].(predecessors := r[k].predecessors, successors := r[k].successors)
  {
    var addedSuccessors := Difference(newSuccessors, oldSuccessors);
    var removedSuccessors := Difference(oldSuccessors, newSuccessors);
    var l1 := LinkEach(gs, Predecessors, gid, addedSuccessors);
    var mid := UnlinkEach(l1, Predecessors, gid, removedSuccessors);
    var predecessorsNow := if OwnerPushed(gs, gid, addedSuccessors, owner) then newPredecessors + [gid] else newPredecessors;
    var addedPredecessors := Difference(predecessorsNow, oldPredecessors);
    var removedPredecessors := Difference(oldPredecessors, predecessorsNow);
    var l2 := LinkEach(mid, Successors, gid, addedPredecessors);
    LinkEachAt(gs, Predecessors, gid, addedSuccessors, k);
    UnlinkEachAt(l1, Predecessors, gid, removedSuccessors, k);
    LinkEachAt(mid, Successors, gid, addedPredecessors, k);
    UnlinkEachAt(l2, Successors, gid, removedPredecessors, k);
    TargetedSameIds(gs, l1, k, removedSuccessors);
    TargetedSameIds(gs, mid, k, addedPredecessors);
    TargetedSameIds(gs, l2, k, removedPredecessors);
    if Targeted(gs, k, removedSuccessors) {
      assert !Targeted(gs, k, addedSuccessors);
    }
    if Targeted(gs, k, removedPredecessors) {
      assert !Targeted(gs, k, addedPredecessors);
    }
  }

  // ---------------------------------------------------------------------
  // insertBetweenLinks

  /**
   * One iteration of the inner loop: if the predecessor at `pi` (id `pId`)
   * lists `sId`, the edge is cut from its successors and `pId` from the
   * predecessors of the greeting found for `sId`.
   */
  function Sever(gs: seq<Greeting>, pi: int, pId: Id, sId: Id): (r: seq<Greeting>)
    requires 0 <= pi < |gs|
    ensures SameIds(gs, r)
  {
    if sId in gs[pi].successors then
      var cut := gs[pi := gs[pi].(successors := Without(gs[pi].successors, sId))];
      var si := FindGreeting(cut, sId);
      if si >= 0 then cut[si := cut[si].(predecessors := Without(cut[si].predecessors, pId))] else cut
    else gs
  }

  /** The inner loop over the new greeting's successors, for the predecessor at `pi`. */
  function SpliceEach(gs: seq<Greeting>, pi: int, pId: Id, successors: seq<Id>): (r: seq<Greeting>)
    requires 0 <= pi < |gs|
    ensures SameIds(gs, r)
    decreases |successors|
  {
    if successors == [] then gs
    else
      var m := SpliceEach(gs, pi, pId, successors[..|successors| - 1]);
      Sever(m, pi, pId, successors[|successors| - 1])
  }

  /** One iteration of the outer loop: nothing when no greeting has id `pId`. */
  function SplicePredecessor(gs: seq<Greeting>, pId: Id, successors: seq<Id>): (r: seq<Greeting>)
    ensures SameIds(gs, r)
  {
    var pi := FindGreeting(gs, pId);
    if pi < 0 then gs else SpliceEach(gs, pi, pId, successors)
  }

  /** The state insertBetweenLinks leaves. */
  function InsertBetween(gs: seq<Greeting>, predecessors: seq<Id>, successors: seq<Id>): (r: seq<Greeting>)
    ensures SameIds(gs, r)
    decreases |predecessors|
  {
    if predecessors == [] then gs
    else
      var m := InsertBetween(gs, predecessors[..|predecessors| - 1], successors);
      SplicePredecessor(m, predecessors[|predecessors| - 1], successors)
  }

  /** `r` differs from `gs` only by entries dropped from link lists. */
  predicate Shrinks(gs: seq<Greeting>, r: seq<Greeting>) {
    && |r| == |gs|
    && (forall k :: 0 <= k < |gs| ==> r[k] == gs[k].(predecessors := r[k].predecessors, successors := r[k].successors))
    && (forall k, y :: 0 <= k < |gs| && y in r[k].predecessors ==> y in gs[k].predecessors)
    && (forall k, y :: 0 <= k < |gs| && y in r[k].successors ==> y in gs[k].successors)
  }

  lemma ShrinksTransitive(a: seq<Greeting>, b: seq<Greeting>, c: seq<Greeting>)
    requires Shrinks(a, b) && Shrinks(b, c)
    ensures Shrinks(a, c)
  {
    forall k | 0 <= k < |a|
      ensures c[k] == a[k].(predecessors := c[k].predecessors, successors := c[k].successors)
    {
      assert b[k] == a[k].(predecessors := b[k].predecessors, successors := b[k].successors);
      assert c[k] == b[k].(predecessors := c[k].predecessors, successors := c[k].successors);
    }
  }

  lemma SeverShrinks(gs: seq<Greeting>, pi: int, pId: Id, sId: Id)
    requires 0 <= pi < |gs|
    ensures Shrinks(gs, Sever(gs, pi, pId, sId))
  {
    if sId in gs[pi].successors {
      var cut := gs[pi := gs[pi].(successors := Without(gs[pi].successors, sId))];
      assert Shrinks(gs, cut);
      var si := FindGreeting(cut, sId);
      if si >= 0 {
        var r := cut[si := cut[si].(predecessors := Without(cut[si].predecessors, pId))];
        assert Shrinks(cut, r);
        ShrinksTransitive(gs, cut, r);
      }
    }
  }

  lemma {:induction false} SpliceEachShrinks(gs: seq<Greeting>, pi: int, pId: Id, successors: seq<Id>)
    requires 0 <= pi < |gs|
    ensures Shrinks(gs, SpliceEach(gs, pi, pId, successors))
    decreases |successors|
  {
    if successors != [] {
      var m := SpliceEach(gs, pi, pId, successors[..|successors| - 1]);
      SpliceEachShrinks(gs, pi, pId, successors[..|successors| - 1]);
      SeverShrinks(m, pi, pId, successors[|successors| - 1]);
      ShrinksTransitive(gs, m, SpliceEach(gs, pi, pId, successors));
    }
  }

  /** insertBetweenLinks only ever removes links; ids and every other field stay as they were. */
  lemma {:induction false} InsertBetweenShrinks(gs: seq<Greeting>, predecessors: seq<Id>, successors: seq<Id>)
    ensures Shrinks(gs, InsertBetween(gs, predecessors, successors))
    decreases |predecessors|
  {
    if predecessors != [] {
      var m := InsertBetween(gs, predecessors[..|predecessors| - 1], successors);
      InsertBetweenShrinks(gs, predecessors[..|predecessors| - 1], successors);
      var pi := FindGreeting(m, predecessors[|predecessors| - 1]);
      if pi >= 0 {
        SpliceEachShrinks(m, pi, predecessors[|predecessors| - 1], successors);
        ShrinksTransitive(gs, m, InsertBetween(gs, predecessors, successors));
      }
    }
  }

  lemma {:induction false} SpliceEachCuts(gs: seq<Greeting>, pi: int, pId: Id, successors: seq<Id>, s: Id)
    requires 0 <= pi < |gs| && s in successors
    ensures s !in SpliceEach(gs, pi, pId, successors)[pi].successors
    decreases |successors|
  {
    var init, t := successors[..|successors| - 1], successors[|successors| - 1];
    assert successors == init + [t];
    var m := SpliceEach(gs, pi, pId, init);
    if s != t {
      SpliceEachCuts(gs, pi, pId, init, s);
      SeverShrinks(m, pi, pId, t);
    }
  }

  /** Every existing predecessor P of the new greeting stops listing any of its successors S. */
  lemma {:induction false} InsertBetweenCuts(gs: seq<Greeting>, predecessors: seq<Id>, successors: seq<Id>, p: Id, s: Id)
    requires p in predecessors && s in successors && FindGreeting(gs, p) >= 0
    ensures s !in InsertBetween(gs, predecessors, successors)[FindGreeting(gs, p)].successors
    decreases |predecessors|
  {
    var init, q := predecessors[..|predecessors| - 1], predecessors[|predecessors| - 1];
    assert predecessors == init + [q];
    var m := InsertBetween(gs, init, successors);
    FindSameIds(gs, m, p);
    var pi := FindGreeting(gs, p);
    if q == p {
      SpliceEachCuts(m, pi, p, successors, s);
    } else {
      InsertBetweenCuts(gs, init, successors, p, s);
      var qi := FindGreeting(m, q);
      if qi >= 0 {
        SpliceEachShrinks(m, qi, q, successors);
      }
    }
  }

  /**
   * Once P has stopped listing S (where it did at the start), S no longer
   * lists P. `gs0` is the state before insertBetweenLinks began.
   */
  predicate BackCut(gs0: seq<Greeting>, st: seq<Greeting>, p: Id, s: Id)
    requires SameIds(gs0, st)
  {
    var pi, si := FindGreeting(gs0, p), FindGreeting(gs0, s);
    pi >= 0 && si >= 0 && s in gs0[pi].successors && s !in st[pi].successors ==> p !in st[si].predecessors
  }

  /** The only successor link a `Sever` step can remove is q -> t. */
  lemma SeverCutsOnly(st: seq<Greeting>, qi: int, q: Id, t: Id, k: int, s: Id)
    requires 0 <= qi < |st| && 0 <= k < |st|
    requires s in st[k].successors && s !in Sever(st, qi, q, t)[k].successors
    ensures k == qi && s == t
  {
    if t in st[qi].successors {
      var cut := st[qi := st[qi].(successors := Without(st[qi].successors, t))];
      assert Sever(st, qi, q, t)[k].successors == cut[k].successors;
    }
  }

  /** When the step cuts q -> t, the greeting found for t stops listing q. */
  lemma SeverCutsBack(st: seq<Greeting>, qi: int, q: Id, t: Id)
    requires 0 <= qi < |st| && t in st[qi].successors && FindGreeting(st, t) >= 0
    ensures q !in Sever(st, qi, q, t)[FindGreeting(st, t)].predecessors
  {
    var cut := st[qi := st[qi].(successors := Without(st[qi].successors, t))];
    FindSameIds(st, cut, t);
  }

  lemma SeverKeepsBackCut(gs0: seq<Greeting>, st: seq<Greeting>, qi: int, q: Id, t: Id, p: Id, s: Id)
    requires Shrinks(gs0, st) && SameIds(gs0, st) && BackCut(gs0, st, p, s)
    requires 0 <= qi < |st| && FindGreeting(st, q) == qi
    ensures SameIds(gs0, Sever(st, qi, q, t)) && BackCut(gs0, Sever(st, qi, q, t), p, s)
  {
    var r := Sever(st, qi, q, t);
    SeverShrinks(st, qi, q, t);
    FindSameIds(gs0, st, p);
    FindSameIds(gs0, st, s);
    var pi, si := FindGreeting(gs0, p), FindGreeting(gs0, s);
    if pi >= 0 && si >= 0 && s in gs0[pi].successors && s !in r[pi].successors {
      if s in st[pi].successors {
        SeverCutsOnly(st, qi, q, t, pi, s);
        assert p == q;
        SeverCutsBack(st, qi, q, t);
      } else {
        assert p !in st[si].predecessors;
      }
    }
  }

  lemma {:induction false} SpliceEachKeepsBackCut(gs0: seq<Greeting>, st: seq<Greeting>, qi: int, q: Id, successors: seq<Id>, p: Id, s: Id)
    requires Shrinks(gs0, st) && SameIds(gs0, st) && BackCut(gs0, st, p, s)
    requires 0 <= qi < |st| && FindGreeting(st, q) == qi
    ensures Shrinks(gs0, SpliceEach(st, qi, q, successors))
    ensures SameIds(gs0, SpliceEach(st, qi, q, successors)) && BackCut(gs0, SpliceEach(st, qi, q, successors), p, s)
    decreases |successors|
  {
    if successors != [] {
      var init := successors[..|successors| - 1];
      var m := SpliceEach(st, qi, q, init);
      SpliceEachKeepsBackCut(gs0, st, qi, q, init, p, s);
      FindSameIds(st, m, q);
      SeverKeepsBackCut(gs0, m, qi, q, successors[|successors| - 1], p, s);
      SeverShrinks(m, qi, q, successors[|successors| - 1]);
      ShrinksTransitive(gs0, m, SpliceEach(st, qi, q, successors));
    }
  }

  lemma {:induction false} InsertBetweenKeepsBackCut(gs0: seq<Greeting>, st: seq<Greeting>, predecessors: seq<Id>, successors: seq<Id>, p: Id, s: Id)
    requires Shrinks(gs0, st) && SameIds(gs0, st) && BackCut(gs0, st, p, s)
    ensures Shrinks(gs0, InsertBetween(st, predecessors, successors))
    ensures SameIds(gs0, InsertBetween(st, predecessors, successors))
    ensures BackCut(gs0, InsertBetween(st, predecessors, successors), p, s)
    decreases |predecessors|
  {
    if predecessors != [] {
      var init, q := predecessors[..|predecessors| - 1], predecessors[|predecessors| - 1];
      var m := InsertBetween(st, init, successors);
      InsertBetweenKeepsBackCut(gs0, st, init, successors, p, s);
      var qi := FindGreeting(m, q);
      if qi >= 0 {
        SpliceEachKeepsBackCut(gs0, m, qi, q, successors, p, s);
      }
    }
  }

  /**
   * insertBetweenLinks severs every direct edge P -> S between an existing
   * predecessor P and a successor S of the new greeting, on both sides: P
   * stops listing S, and where P listed S to begin with, S stops listing P.
   */
  lemma InsertBetweenSevers(gs: seq<Greeting>, predecessors: seq<Id>, successors: seq<Id>, p: Id, s: Id)
    requires p in predecessors && s in successors && FindGreeting(gs, p) >= 0
    ensures
      var r := InsertBetween(gs, predecessors, successors);
      var pi, si := FindGreeting(gs, p), FindGreeting(gs, s);
      && s !in r[pi].successors
      && (si >= 0 && s in gs[pi].successors ==> p !in r[si].predecessors)
  {
    InsertBetweenCuts(gs, predecessors, successors, p, s);
    assert Shrinks(gs, gs);
    InsertBetweenKeepsBackCut(gs, gs, predecessors, successors, p, s);
  }
}
