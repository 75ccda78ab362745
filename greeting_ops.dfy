/**
 * The greeting actions of the store (addGreeting, updateGreeting,
 * deleteGreeting) and the canon getter, as functions on the greeting list,
 * with what they guarantee about the links between greetings.
 */
module GreetingOps {
  import opened Types
  import opened IdLists
  import opened Links
  import opened Symmetry

  /** No greeting lists `x` as a predecessor or a successor. */
  predicate Unmentioned(gs: seq<Greeting>, x: Id) {
    forall k :: 0 <= k < |gs| ==> x !in gs[k].predecessors && x !in gs[k].successors
  }

  predicate Absent(gs: seq<Greeting>, x: Id) {
    forall k :: 0 <= k < |gs| ==> gs[k].id != x
  }

  /** Two lists agree on ids and on both link lists at every position (other fields may differ). */
  predicate SameLinks(gs: seq<Greeting>, hs: seq<Greeting>) {
    SameIds(gs, hs) &&
    forall k :: 0 <= k < |gs| ==> gs[k].predecessors == hs[k].predecessors && gs[k].successors == hs[k].successors
  }

  lemma SameLinksSymmetric(gs: seq<Greeting>, hs: seq<Greeting>)
    requires SameLinks(gs, hs) && Symmetric(gs) && UniqueIds(gs)
    ensures Symmetric(hs) && UniqueIds(hs)
  {
    UniqueSameIds(gs, hs);
    forall a, b | 0 <= a < |hs| && 0 <= b < |hs| ensures EdgeAgrees(hs, a, b) {
      assert EdgeAgrees(gs, a, b);
    }
  }

  // ---------------------------------------------------------------------
  // addGreeting

  /**
   * addGreeting once its record `g` is built: append it, sync its links
   * treating the old lists as empty, then splice it between its predecessors
   * and successors as its lists stand after the sync.
   */
  function AddGreetingTo(gs: seq<Greeting>, g: Greeting): (r: seq<Greeting>)
    ensures |r| == |gs| + 1 && SameIds(gs + [g], r)
  {
    var n := |gs|;
    var synced := SyncLinks(gs + [g], g.id, [], g.successors, [], g.predecessors, n);
    InsertBetween(synced, synced[n].predecessors, synced[n].successors)
  }

  /**
   * addGreeting keeps the links symmetric when the new id is new to the
   * store: no greeting has it and none lists it.
   */
  lemma AddPreservesSymmetry(gs: seq<Greeting>, g: Greeting)
    requires UniqueIds(gs) && Symmetric(gs)
    requires Absent(gs, g.id) && Unmentioned(gs, g.id)
    ensures UniqueIds(AddGreetingTo(gs, g)) && Symmetric(AddGreetingTo(gs, g))
  {
    var n := |gs|;
    var m := gs + [g];
    assert UniqueIds(m);
    var o := m[n := g.(successors := [], predecessors := [])];
    forall a, b | 0 <= a < |o| && 0 <= b < |o| ensures EdgeAgrees(o, a, b) {
      if a < n && b < n {
        assert EdgeAgrees(gs, a, b);
      }
    }
    SyncPreservesSymmetry(m, n, [], []);
    var synced := SyncLinks(m, g.id, [], g.successors, [], g.predecessors, n);
    InsertBetweenPreservesSymmetry(synced, synced[n].predecessors, synced[n].successors);
  }

  /**
   * Inserting X between A and B, where A -> B: A ends up listing X instead
   * of B, B ends up listing X instead of A, and X keeps [A] and [B].
   */
  lemma AddBetweenSplices(gs: seq<Greeting>, g: Greeting, ia: int, ib: int)
    requires UniqueIds(gs) && Symmetric(gs)
    requires 0 <= ia < |gs| && 0 <= ib < |gs| && ia != ib
    requires gs[ib].id in gs[ia].successors
    requires g.predecessors == [gs[ia].id] && g.successors == [gs[ib].id]
    requires Absent(gs, g.id) && Unmentioned(gs, g.id)
    ensures
      var r := AddGreetingTo(gs, g);
      && r[ia].successors == Without(gs[ia].successors, gs[ib].id) + [g.id]
      && r[ib].predecessors == Without(gs[ib].predecessors, gs[ia].id) + [g.id]
      && r[|gs|].predecessors == [gs[ia].id] && r[|gs|].successors == [gs[ib].id]
      && Symmetric(r)
  {
    AddBetweenNeighbours(gs, g, ia, ib);
    AddPreservesSymmetry(gs, g);
  }

  /** The neighbour lists of AddBetweenSplices, before the symmetry argument. */
  lemma AddBetweenNeighbours(gs: seq<Greeting>, g: Greeting, ia: int, ib: int)
    requires UniqueIds(gs)
    requires 0 <= ia < |gs| && 0 <= ib < |gs| && ia != ib
    requires gs[ib].id in gs[ia].successors
    requires g.predecessors == [gs[ia].id] && g.successors == [gs[ib].id]
    requires Absent(gs, g.id) && Unmentioned(gs, g.id)
    ensures
      var r := AddGreetingTo(gs, g);
      && r[ia].successors == Without(gs[ia].successors, gs[ib].id) + [g.id]
      && r[ib].predecessors == Without(gs[ib].predecessors, gs[ia].id) + [g.id]
      && r[|gs|].predecessors == [gs[ia].id] && r[|gs|].successors == [gs[ib].id]
  {
    var n, x, a, b := |gs|, g.id, gs[ia].id, gs[ib].id;
    var synced := SyncLinks(gs + [g], x, [], [b], [], [a], n);
    AddSyncsNeighbours(gs, g, ia, ib);
    AddIsSever(gs, g, ia, ib);
    var r := AddGreetingTo(gs, g);
    SeverEffect(synced, ia, a, b, ib);
    assert r[n] == synced[n];
    WithoutSnoc(gs[ia].successors, x, b);
    WithoutSnoc(gs[ib].predecessors, x, a);
  }

  /** With one predecessor A and one successor B, the splice step of addGreeting is the single cut of A -> B. */
  lemma AddIsSever(gs: seq<Greeting>, g: Greeting, ia: int, ib: int)
    requires UniqueIds(gs)
    requires 0 <= ia < |gs| && 0 <= ib < |gs| && ia != ib
    requires g.predecessors == [gs[ia].id] && g.successors == [gs[ib].id]
    requires Absent(gs, g.id) && Unmentioned(gs, g.id)
    ensures
      var synced := SyncLinks(gs + [g], g.id, [], g.successors, [], g.predecessors, |gs|);
      && AddGreetingTo(gs, g) == Sever(synced, ia, gs[ia].id, gs[ib].id)
      && FindGreeting(synced, gs[ib].id) == ib
  {
    var n, x, a, b := |gs|, g.id, gs[ia].id, gs[ib].id;
    var m := gs + [g];
    var synced := SyncLinks(m, x, [], [b], [], [a], n);
    AddSyncsNeighbours(gs, g, ia, ib);
    assert UniqueIds(m);
    UniqueIsFirst(m, ia);
    UniqueIsFirst(m, ib);
    FindSameIds(m, synced, a);
    FindSameIds(m, synced, b);
    InsertBetweenOne(synced, ia, a, b);
  }

  /** Cutting an edge p -> s that is present, where s is found at `si`, elsewhere than p's position. */
  lemma SeverEffect(gs: seq<Greeting>, pi: int, p: Id, s: Id, si: int)
    requires 0 <= pi < |gs| && s in gs[pi].successors
    requires 0 <= si < |gs| && si != pi && FindGreeting(gs, s) == si
    ensures
      var r := Sever(gs, pi, p, s);
      && r[pi].successors == Without(gs[pi].successors, s)
      && r[si].predecessors == Without(gs[si].predecessors, p)
      && forall k :: 0 <= k < |gs| && k != pi && k != si ==> r[k] == gs[k]
  {
    var cut := gs[pi := gs[pi].(successors := Without(gs[pi].successors, s))];
    FindSameIds(gs, cut, s);
  }

  /** The sync step of addGreeting when X names A as its one predecessor and B as its one successor. */
  lemma AddSyncsNeighbours(gs: seq<Greeting>, g: Greeting, ia: int, ib: int)
    requires UniqueIds(gs)
    requires 0 <= ia < |gs| && 0 <= ib < |gs| && ia != ib
    requires g.predecessors == [gs[ia].id] && g.successors == [gs[ib].id]
    requires Absent(gs, g.id) && Unmentioned(gs, g.id)
    ensures
      var synced := SyncLinks(gs + [g], g.id, [], g.successors, [], g.predecessors, |gs|);
      && synced[ia].successors == gs[ia].successors + [g.id]
      && synced[ib].predecessors == gs[ib].predecessors + [g.id]
      && synced[|gs|].predecessors == g.predecessors && synced[|gs|].successors == g.successors
  {
    var n, x, a, b := |gs|, g.id, gs[ia].id, gs[ib].id;
    var m := gs + [g];
    assert UniqueIds(m);
    UniqueIsFirst(m, ia);
    UniqueIsFirst(m, ib);
    UniqueIsFirst(m, n);
    assert Difference([b], []) == [b];
    assert Difference([a], []) == [a];
    assert !OwnerPushed(m, x, [b], n);
    SyncLinksAt(m, x, [], [b], [], [a], n, ia);
    SyncLinksAt(m, x, [], [b], [], [a], n, ib);
    SyncLinksAt(m, x, [], [b], [], [a], n, n);
  }

  /** insertBetweenLinks with one predecessor, found at `pi`, and one successor is a single cut. */
  lemma InsertBetweenOne(gs: seq<Greeting>, pi: int, a: Id, b: Id)
    requires 0 <= pi < |gs| && FindGreeting(gs, a) == pi
    ensures InsertBetween(gs, [a], [b]) == Sever(gs, pi, a, b)
  {
    var one: seq<Id> := [a];
    assert one[..0] == [] && one[0] == a;
    assert InsertBetween(gs, one, [b]) == SplicePredecessor(InsertBetween(gs, [], [b]), a, [b]);
    assert SplicePredecessor(gs, a, [b]) == SpliceEach(gs, pi, a, [b]);
    var two: seq<Id> := [b];
    assert two[..0] == [] && two[0] == b;
    assert SpliceEach(gs, pi, a, two) == Sever(SpliceEach(gs, pi, a, []), pi, a, b);
  }

  // ---------------------------------------------------------------------
  // updateGreeting

  /**
   * updateGreeting: nothing when no greeting has `id`; otherwise the first
   * one becomes the shallow merge of itself and `u`, and when `u` carries
   * either link list the neighbours are synced (no splice).
   */
  function UpdateGreetingIn(gs: seq<Greeting>, id: Id, u: GreetingPatch): (r: seq<Greeting>)
    ensures |r| == |gs|
    ensures Absent(gs, id) ==> r == gs
  {
    var i := FindGreeting(gs, id);
    if i < 0 then gs
    else
      var merged := gs[i := Merge(gs[i], u)];
      if u.successors.Some? || u.predecessors.Some? then
        SyncLinks(merged, id, gs[i].successors, merged[i].successors, gs[i].predecessors, merged[i].predecessors, i)
      else merged
  }

  /** An update that carries neither link list changes the one record and no other greeting. */
  lemma UpdateWithoutLinksTouchesOneRecord(gs: seq<Greeting>, id: Id, u: GreetingPatch)
    requires u.successors.None? && u.predecessors.None?
    ensures var i, r := FindGreeting(gs, id), UpdateGreetingIn(gs, id, u);
      forall k :: 0 <= k < |gs| ==> r[k] == if k == i then Merge(gs[k], u) else gs[k]
  {
  }

  /** An update that keeps the record's id keeps the links symmetric. */
  lemma UpdatePreservesSymmetry(gs: seq<Greeting>, id: Id, u: GreetingPatch)
    requires UniqueIds(gs) && Symmetric(gs)
    requires u.id.None? || u.id == Some(id)
    ensures UniqueIds(UpdateGreetingIn(gs, id, u)) && Symmetric(UpdateGreetingIn(gs, id, u))
  {
    var i := FindGreeting(gs, id);
    if i >= 0 {
      var merged := gs[i := Merge(gs[i], u)];
      var o := merged[i := merged[i].(successors := gs[i].successors, predecessors := gs[i].predecessors)];
      assert SameLinks(gs, o);
      SameLinksSymmetric(gs, o);
      assert SameIds(gs, merged);
      UniqueSameIds(gs, merged);
      if u.successors.Some? || u.predecessors.Some? {
        SyncPreservesSymmetry(merged, i, gs[i].successors, gs[i].predecessors);
      } else {
        assert SameLinks(gs, merged);
        SameLinksSymmetric(gs, merged);
      }
    }
  }

  /**
   * syncBidirectionalLinks on the neighbours (every greeting other than the
   * one whose lists changed): a greeting newly listed as a successor gains
   * `gid` among its predecessors, once; one no longer listed loses every
   * `gid`; the same with the roles swapped; duplicates of an id after its
   * first occurrence, and greetings named in none of the four lists, are
   * left as they were.
   */
  lemma SyncLinksNeighbours(gs: seq<Greeting>, gid: Id, oldS: seq<Id>, newS: seq<Id>,
                            oldP: seq<Id>, newP: seq<Id>, owner: int, k: int)
    requires 0 <= k < |gs| && gs[k].id != gid
    ensures
      var r, y := SyncLinks(gs, gid, oldS, newS, oldP, newP, owner), gs[k].id;
      && (IsFirst(gs, k) && y in newS && y !in oldS ==>
            r[k].predecessors == if gid in gs[k].predecessors then gs[k].predecessors else gs[k].predecessors + [gid])
      && (IsFirst(gs, k) && y in oldS && y !in newS ==> gid !in r[k].predecessors)
      && (IsFirst(gs, k) && y in newP && y !in oldP ==>
            r[k].successors == if gid in gs[k].successors then gs[k].successors else gs[k].successors + [gid])
      && (IsFirst(gs, k) && y in oldP && y !in newP ==> gid !in r[k].successors)
      && ((y !in newS && y !in oldS && y !in newP && y !in oldP) || !IsFirst(gs, k) ==> r[k] == gs[k])
  {
    SyncLinksAt(gs, gid, oldS, newS, oldP, newP, owner, k);
  }

  // ---------------------------------------------------------------------
  // deleteGreeting

  /**
   * `greetings.filter(g => g.id !== id)`: none with `id` remains;
   * DropIdKeeps says which stay and DropIdAppend that their order is kept.
   */
  function DropId(gs: seq<Greeting>, id: Id): (r: seq<Greeting>)
    ensures Absent(r, id)
  {
    if gs == [] then []
    else if gs[0].id == id then DropId(gs[1..], id)
    else [gs[0]] + DropId(gs[1..], id)
  }

  /** The greeting filter keeps order and multiplicity: it distributes over concatenation. */
  lemma {:induction false} DropIdAppend(a: seq<Greeting>, b: seq<Greeting>, id: Id)
    ensures DropId(a + b, id) == DropId(a, id) + DropId(b, id)
    decreases |a|
  {
    if a == [] {
      assert a + b == b;
    } else {
      var t, h := a[1..], if a[0].id != id then [a[0]] else [];
      DropIdAppend(t, b, id);
      DropIdCons(a, id);
      DropIdCons(a + b, id);
      assert (a + b)[1..] == t + b;
      assert h + (DropId(t, id) + DropId(b, id)) == (h + DropId(t, id)) + DropId(b, id);
    }
  }

  lemma DropIdCons(a: seq<Greeting>, id: Id)
    requires a != []
    ensures DropId(a, id) == (if a[0].id != id then [a[0]] else []) + DropId(a[1..], id)
  {
  }

  /** The greeting filter keeps exactly the greetings with another id, and leaves a list without `id` as it is. */
  lemma {:induction false} DropIdKeeps(gs: seq<Greeting>, id: Id)
    ensures forall g :: g in DropId(gs, id) <==> g in gs && g.id != id
    ensures Absent(gs, id) ==> DropId(gs, id) == gs
    decreases |gs|
  {
    if gs != [] {
      DropIdKeeps(gs[1..], id);
      assert gs == [gs[0]] + gs[1..];
    }
  }

  /** A single greeting stays exactly when its id differs; with DropIdAppend this pins down the whole result. */
  lemma DropIdOne(g: Greeting, id: Id)
    ensures DropId([g], id) == if g.id != id then [g] else []
  {
  }

  /**
   * The clean-up deleteGreeting does before removing the record: the
   * greetings its successors name lose `id` as a predecessor, then those its
   * predecessors (as they stand after that) name lose `id` as a successor.
   */
  function DetachGreeting(gs: seq<Greeting>, id: Id): (r: seq<Greeting>)
    ensures SameIds(gs, r)
    ensures Absent(gs, id) ==> r == gs
  {
    var i := FindGreeting(gs, id);
    if i < 0 then gs
    else
      var mid := UnlinkEach(gs, Predecessors, id, gs[i].successors);
      UnlinkEach(mid, Successors, id, mid[i].predecessors)
  }

  function DeleteGreetingFrom(gs: seq<Greeting>, id: Id): (r: seq<Greeting>)
    ensures Absent(r, id)
    ensures Absent(gs, id) ==> r == gs
  {
    var d := DetachGreeting(gs, id);
    DropIdKeeps(d, id);
    DropId(d, id)
  }

  /**
   * deleteGreeting cleans only the neighbours its record names: another
   * greeting loses `id` from its predecessors exactly when the deleted
   * record listed it as a successor (and it is the first with its id), and
   * from its successors exactly when the record listed it as a predecessor.
   */
  lemma DetachCleansNamedNeighbours(gs: seq<Greeting>, id: Id, k: int)
    requires 0 <= k < |gs| && gs[k].id != id
    ensures
      var i, r := FindGreeting(gs, id), DetachGreeting(gs, id);
      r[k] == if i < 0 then gs[k] else gs[k].(
        predecessors := if Targeted(gs, k, gs[i].successors) then Without(gs[k].predecessors, id) else gs[k].predecessors,
        successors := if Targeted(gs, k, gs[i].predecessors) then Without(gs[k].successors, id) else gs[k].successors)
  {
    var i := FindGreeting(gs, id);
    if i >= 0 {
      var mid := UnlinkEach(gs, Predecessors, id, gs[i].successors);
      UnlinkEachAt(gs, Predecessors, id, gs[i].successors, k);
      UnlinkEachAt(gs, Predecessors, id, gs[i].successors, i);
      UnlinkEachAt(mid, Successors, id, mid[i].predecessors, k);
      TargetedSameIds(gs, mid, k, mid[i].predecessors);
      // the record's own predecessors lost at most `id`, which is not the id at k
      assert gs[k].id in mid[i].predecessors <==> gs[k].id in gs[i].predecessors;
    }
  }

  /**
   * With symmetric links, deleting an existing greeting leaves no greeting
   * listing its id, and the links stay symmetric.
   */
  lemma DeleteSevers(gs: seq<Greeting>, id: Id)
    requires UniqueIds(gs) && Symmetric(gs)
    ensures FindGreeting(gs, id) >= 0 ==> Unmentioned(DeleteGreetingFrom(gs, id), id)
    ensures UniqueIds(DeleteGreetingFrom(gs, id)) && Symmetric(DeleteGreetingFrom(gs, id))
  {
    var i := FindGreeting(gs, id);
    var d := DetachGreeting(gs, id);
    var r := DeleteGreetingFrom(gs, id);
    UniqueSameIds(gs, d);
    DropIdUnique(d, id);
    if i >= 0 {
      DetachCleansAll(gs, id);
      DropIdKeeps(d, id);
      forall k | 0 <= k < |r| ensures id !in r[k].predecessors && id !in r[k].successors {
        assert r[k] in d;
        var j :| 0 <= j < |d| && d[j] == r[k];
      }
      forall a, b | 0 <= a < |d| && 0 <= b < |d| && d[a].id != id && d[b].id != id ensures EdgeAgrees(d, a, b) {
        assert EdgeAgrees(gs, a, b);
      }
    } else {
      assert d == gs;
    }
    DropIdSymmetric(d, id);
  }

  /** With symmetric links, detaching an existing greeting removes its id from every other greeting's lists and changes nothing else in them. */
  lemma DetachCleansAll(gs: seq<Greeting>, id: Id)
    requires UniqueIds(gs) && Symmetric(gs) && FindGreeting(gs, id) >= 0
    ensures var d := DetachGreeting(gs, id);
      forall k :: 0 <= k < |gs| && gs[k].id != id ==>
        d[k].predecessors == Without(gs[k].predecessors, id) && d[k].successors == Without(gs[k].successors, id)
  {
    var i := FindGreeting(gs, id);
    var d := DetachGreeting(gs, id);
    forall k | 0 <= k < |gs| && gs[k].id != id
      ensures d[k].predecessors == Without(gs[k].predecessors, id) && d[k].successors == Without(gs[k].successors, id)
    {
      DetachCleansNamedNeighbours(gs, id, k);
      UniqueIsFirst(gs, k);
      assert EdgeAgrees(gs, i, k) && EdgeAgrees(gs, k, i);
    }
  }

  /** Dropping the records with `id` keeps symmetric whatever edges agree among the records that stay. */
  lemma DropIdSymmetric(d: seq<Greeting>, id: Id)
    requires forall a, b :: 0 <= a < |d| && 0 <= b < |d| && d[a].id != id && d[b].id != id ==> EdgeAgrees(d, a, b)
    ensures Symmetric(DropId(d, id))
  {
    var r := DropId(d, id);
    DropIdKeeps(d, id);
    forall a, b | 0 <= a < |r| && 0 <= b < |r| ensures EdgeAgrees(r, a, b) {
      assert r[a] in d && r[b] in d;
      var ia :| 0 <= ia < |d| && d[ia] == r[a];
      var ib :| 0 <= ib < |d| && d[ib] == r[b];
      assert EdgeAgrees(d, ia, ib);
    }
  }

  lemma {:induction false} DropIdUnique(d: seq<Greeting>, id: Id)
    requires UniqueIds(d)
    ensures UniqueIds(DropId(d, id))
    decreases |d|
  {
    if d != [] {
      var t := DropId(d[1..], id);
      assert UniqueIds(d[1..]) by {
        forall i, j | 0 <= i < j < |d[1..]| ensures d[1..][i].id != d[1..][j].id {
          assert d[1..][i] == d[i + 1] && d[1..][j] == d[j + 1];
        }
      }
      DropIdUnique(d[1..], id);
      if d[0].id != id {
        var r := [d[0]] + t;
        DropIdKeeps(d[1..], id);
        forall j | 0 <= j < |t| ensures t[j].id != d[0].id {
          assert t[j] in d[1..];
          var m :| 0 <= m < |d[1..]| && d[1..][m] == t[j];
          assert d[m + 1] == t[j];
        }
        forall i, j | 0 <= i < j < |r| ensures r[i].id != r[j].id {
          assert r[j] == t[j - 1];
          if i > 0 {
            assert r[i] == t[i - 1];
          }
        }
      }
    }
  }

  // ---------------------------------------------------------------------
  // getters

  /** `greetings.find(g => g.id === id)`. */
  function GetGreetingById(gs: seq<Greeting>, id: Id): (r: Option<Greeting>)
    ensures r.None? <==> Absent(gs, id)
    ensures r.Some? ==> exists j :: 0 <= j < |gs| && gs[j] == r.value && r.value.id == id &&
                                   forall i :: 0 <= i < j ==> gs[i].id != id
  {
    var i := FindGreeting(gs, id);
    if i < 0 then None else Some(gs[i])
  }

  /** `greetings.filter(g => g.canon)`. */
  function CanonOnly(gs: seq<Greeting>): (r: seq<Greeting>)
    ensures |r| <= |gs|
  {
    if gs == [] then []
    else if gs[0].canon then [gs[0]] + CanonOnly(gs[1..])
    else CanonOnly(gs[1..])
  }

  /** The canon filter keeps order and multiplicity: it distributes over concatenation. */
  lemma {:induction false} CanonOnlyAppend(a: seq<Greeting>, b: seq<Greeting>)
    ensures CanonOnly(a + b) == CanonOnly(a) + CanonOnly(b)
    decreases |a|
  {
    if a != [] {
      var t, h := a[1..], if a[0].canon then [a[0]] else [];
      assert (a + b)[0] == a[0] && (a + b)[1..] == t + b;
      assert CanonOnly(a) == h + CanonOnly(t);
      assert CanonOnly(a + b) == h + CanonOnly(t + b);
      CanonOnlyAppend(t, b);
      assert h + (CanonOnly(t) + CanonOnly(b)) == (h + CanonOnly(t)) + CanonOnly(b);
    } else {
      assert a + b == b;
    }
  }

  /** canonGreetings holds exactly the canon greetings. */
  lemma {:induction false} CanonOnlyKeeps(gs: seq<Greeting>)
    ensures forall g :: g in CanonOnly(gs) <==> g in gs && g.canon
    decreases |gs|
  {
    if gs != [] {
      CanonOnlyKeeps(gs[1..]);
      assert gs == [gs[0]] + gs[1..];
    }
  }

  /** A single greeting stays exactly when it is canon; with CanonOnlyAppend this pins down the whole result. */
  lemma CanonOnlyOne(g: Greeting)
    ensures CanonOnly([g]) == if g.canon then [g] else []
  {
  }
}
