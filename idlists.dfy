/** The two `filter` expressions the store applies to lists of ids. */
module IdLists {
  import opened Types

  /** `l.filter(y => y !== x)`: every occurrence of `x` dropped, the rest kept in order. */
  function Without(l: seq<Id>, x: Id): (r: seq<Id>)
    ensures forall y :: y in r <==> y in l && y != x
    ensures |r| <= |l|
    ensures x !in l ==> r == l
  {
    if l == [] then []
    else if l[0] == x then Without(l[1..], x)
    else [l[0]] + Without(l[1..], x)
  }

  /** `a.filter(y => !b.includes(y))`: the entries of `a` that `b` lacks, in order. */
  function Difference(a: seq<Id>, b: seq<Id>): (r: seq<Id>)
    ensures forall y :: y in r <==> y in a && y !in b
    ensures |r| <= |a|
  {
    if a == [] then []
    else if a[0] in b then Difference(a[1..], b)
    else [a[0]] + Difference(a[1..], b)
  }

  lemma {:induction false} WithoutAppend(l: seq<Id>, m: seq<Id>, x: Id)
    ensures Without(l + m, x) == Without(l, x) + Without(m, x)
    decreases |l|
  {
    if l != [] {
      assert (l + m)[1..] == l[1..] + m;
      WithoutAppend(l[1..], m, x);
    } else {
      assert l + m == m;
    }
  }

  /** Appending an id other than the one removed commutes with removal. */
  lemma WithoutSnoc(l: seq<Id>, y: Id, x: Id)
    requires y != x
    ensures Without(l + [y], x) == Without(l, x) + [y]
  {
    WithoutAppend(l, [y], x);
    assert Without([y], x) == [y];
  }
}
