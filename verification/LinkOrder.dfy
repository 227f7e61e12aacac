/** The orderings the store's queries apply (`OrderBy` / `OrderByDescending`
    on a record field) and a sort that realises them. */
module LinkOrder {
  import opened Wrappers
  import opened PageLinks

  /** The three orderings in use. */
  datatype Order =
    | CreatedNewestFirst   // OrderByDescending(p => p.CreatedAt)
    | CheckedNewestFirst   // OrderByDescending(p => p.LastCheckedAt)
    | CheckedOldestFirst   // OrderBy(p => p.LastCheckedAt)

  /** Nullable times compare with null below every value. */
  predicate NullableLe(a: Option<Time>, b: Option<Time>) {
    a.None? || (b.Some? && a.value <= b.value)
  }

  /** `a` may come before `b` in a result ordered by `o`. */
  predicate InOrder(o: Order, a: PageLink, b: PageLink) {
    match o
    case CreatedNewestFirst => a.createdAt >= b.createdAt
    case CheckedNewestFirst => NullableLe(b.lastCheckedAt, a.lastCheckedAt)
    case CheckedOldestFirst => NullableLe(a.lastCheckedAt, b.lastCheckedAt)
  }

  ghost predicate Sorted(o: Order, xs: seq<PageLink>) {
    forall i, j :: 0 <= i < j < |xs| ==> InOrder(o, xs[i], xs[j])
  }

  /** Every ordering is total and transitive, so any two records can be placed.
      A never-checked record may come first in the ascending check order and
      last in the descending one, as SQL Server sorts nulls lowest. */
  lemma InOrderTotalPreorder(o: Order, a: PageLink, b: PageLink, c: PageLink)
    ensures InOrder(o, a, b) || InOrder(o, b, a)
    ensures InOrder(o, a, b) && InOrder(o, b, c) ==> InOrder(o, a, c)
    ensures a.lastCheckedAt.None? ==> InOrder(CheckedOldestFirst, a, b) && InOrder(CheckedNewestFirst, b, a)
    ensures a.lastCheckedAt.None? && b.lastCheckedAt.Some? ==>
      !InOrder(CheckedOldestFirst, b, a) && !InOrder(CheckedNewestFirst, a, b)
  {
  }

  lemma SortedCons(o: Order, y: PageLink, ys: seq<PageLink>)
    requires Sorted(o, ys)
    requires forall k :: 0 <= k < |ys| ==> InOrder(o, y, ys[k])
    ensures Sorted(o, [y] + ys)
  {
  }

  /** Every element of a permutation of `ys` plus `x` comes no earlier than `y`
      when `y` may precede both `x` and all of `ys`. */
  lemma BoundedPermutation(o: Order, y: PageLink, x: PageLink, ys: seq<PageLink>, zs: seq<PageLink>)
    requires InOrder(o, y, x)
    requires forall k :: 0 <= k < |ys| ==> InOrder(o, y, ys[k])
    requires multiset(zs) == multiset(ys) + multiset{x}
    ensures forall k :: 0 <= k < |zs| ==> InOrder(o, y, zs[k])
  {
    forall k | 0 <= k < |zs|
      ensures InOrder(o, y, zs[k])
    {
      assert zs[k] in multiset(zs);
      if zs[k] != x {
        assert zs[k] in multiset(ys);
        var j :| 0 <= j < |ys| && ys[j] == zs[k];
      }
    }
  }

  /** Puts `x` into a sorted sequence, in front of the first element it may precede. */
  function Insert(o: Order, x: PageLink, xs: seq<PageLink>): (r: seq<PageLink>)
    requires Sorted(o, xs)
    ensures Sorted(o, r)
    ensures multiset(r) == multiset(xs) + multiset{x}
  {
    if |xs| == 0 then [x]
    else if InOrder(o, x, xs[0]) then
      SortedCons(o, x, xs);
      [x] + xs
    else
      var rest := Insert(o, x, xs[1..]);
      assert xs == [xs[0]] + xs[1..];
      BoundedPermutation(o, xs[0], x, xs[1..], rest);
      SortedCons(o, xs[0], rest);
      [xs[0]] + rest
  }

  /** The records of `xs` rearranged into order `o`. */
  function Sort(o: Order, xs: seq<PageLink>): (r: seq<PageLink>)
    ensures Sorted(o, r)
    ensures multiset(r) == multiset(xs)
  {
    if |xs| == 0 then []
    else
      assert xs == [xs[0]] + xs[1..];
      Insert(o, xs[0], Sort(o, xs[1..]))
  }
}
