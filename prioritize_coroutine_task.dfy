/**
 * The priority overlay: a task that keeps a list of promoted elements and
 * reorders the handleable elements by membership in that list.
 *
 * `sortedBy { it in priorities }` sorts stably on a Boolean key, and
 * Booleans compare with false before true, so the elements that were NOT
 * promoted come first. SortedByMembership models that sort as a stable
 * insertion sort; Partition is the declarative reading of the same order.
 * PromotedFirst is the order a promotion is meant to give (promoted elements
 * first); it is defined beside the code's order, which the task keeps.
 */
module PrioritizeCoroutineTask {

  // ---------------------------------------------------------------------------
  // Stable sort on the key `it in priorities`
  // ---------------------------------------------------------------------------

  /** The elements of `xs` whose membership in `priorities` equals `promoted`, in their order in `xs`. */
  function Kept<E(==)>(xs: seq<E>, priorities: seq<E>, promoted: bool): (ks: seq<E>)
    ensures |ks| <= |xs|
  {
    if xs == [] then []
    else
      var x := xs[|xs| - 1];
      Kept(xs[..|xs| - 1], priorities, promoted) + (if (x in priorities) == promoted then [x] else [])
  }

  /** The order of Kotlin's Boolean keys: false before true. */
  predicate KeyLe(a: bool, b: bool) {
    !a || b
  }

  /** Stable insertion of `x` into `sorted`: after every element whose key is not above the key of `x`. */
  function Insert<E(==)>(sorted: seq<E>, x: E, priorities: seq<E>): (r: seq<E>)
    ensures |r| == |sorted| + 1
  {
    if sorted == [] || KeyLe(sorted[|sorted| - 1] in priorities, x in priorities) then sorted + [x]
    else Insert(sorted[..|sorted| - 1], x, priorities) + [sorted[|sorted| - 1]]
  }

  /** `xs.sortedBy { it in priorities }`, as a stable insertion sort. */
  function SortedByMembership<E(==)>(xs: seq<E>, priorities: seq<E>): (r: seq<E>)
    ensures |r| == |xs|
  {
    if xs == [] then []
    else Insert(SortedByMembership(xs[..|xs| - 1], priorities), xs[|xs| - 1], priorities)
  }

  /** The stable partition of `xs`: the elements not in `priorities`, then those in it, each group in its original order. */
  function Partition<E(==)>(xs: seq<E>, priorities: seq<E>): seq<E> {
    Kept(xs, priorities, false) + Kept(xs, priorities, true)
  }

  lemma KeptSnoc<E>(xs: seq<E>, x: E, priorities: seq<E>, promoted: bool)
    ensures Kept(xs + [x], priorities, promoted)
         == Kept(xs, priorities, promoted) + (if (x in priorities) == promoted then [x] else [])
  {
    assert (xs + [x])[..|xs|] == xs;
  }

  lemma {:induction false} KeptDistributes<E>(a: seq<E>, b: seq<E>, priorities: seq<E>, promoted: bool)
    ensures Kept(a + b, priorities, promoted) == Kept(a, priorities, promoted) + Kept(b, priorities, promoted)
    decreases |b|
  {
    if b == [] {
      assert a + b == a;
    } else {
      var b' := b[..|b| - 1];
      var x := b[|b| - 1];
      assert b == b' + [x];
      assert a + b == (a + b') + [x];
      KeptDistributes(a, b', priorities, promoted);
      KeptSnoc(a + b', x, priorities, promoted);
      KeptSnoc(b', x, priorities, promoted);
    }
  }

  /** An element is kept exactly when it occurs in `xs` with the requested membership. */
  lemma {:induction false} KeptMembers<E>(xs: seq<E>, priorities: seq<E>, promoted: bool)
    ensures forall x :: x in Kept(xs, priorities, promoted) <==> x in xs && (x in priorities) == promoted
    decreases |xs|
  {
    if xs != [] {
      var xs' := xs[..|xs| - 1];
      KeptMembers(xs', priorities, promoted);
      assert xs == xs' + [xs[|xs| - 1]];
    }
  }

  /** When every element has the requested membership, nothing is dropped; when none has it, nothing is kept. */
  lemma {:induction false} KeptUniform<E>(xs: seq<E>, priorities: seq<E>, promoted: bool)
    requires forall x :: x in xs ==> (x in priorities) == promoted
    ensures Kept(xs, priorities, promoted) == xs
    ensures Kept(xs, priorities, !promoted) == []
    decreases |xs|
  {
    if xs != [] {
      var xs' := xs[..|xs| - 1];
      assert xs == xs' + [xs[|xs| - 1]];
      KeptUniform(xs', priorities, promoted);
    }
  }

  /** The two groups together hold every element of `xs` as often as `xs` does. */
  lemma {:induction false} KeptSplitsMultiset<E>(xs: seq<E>, priorities: seq<E>)
    ensures multiset(Kept(xs, priorities, false)) + multiset(Kept(xs, priorities, true)) == multiset(xs)
    decreases |xs|
  {
    if xs != [] {
      var xs' := xs[..|xs| - 1];
      assert xs == xs' + [xs[|xs| - 1]];
      KeptSplitsMultiset(xs', priorities);
    }
  }

  /** Inserting a non-promoted element after a non-promoted group and before a promoted one puts it between the two. */
  lemma {:induction false} InsertBetween<E>(low: seq<E>, high: seq<E>, x: E, priorities: seq<E>)
    requires forall y :: y in low ==> y !in priorities
    requires forall y :: y in high ==> y in priorities
    requires x !in priorities
    ensures Insert(low + high, x, priorities) == low + [x] + high
    decreases |high|
  {
    if high == [] {
      assert low + high == low;
    } else {
      var high' := high[..|high| - 1];
      var last := high[|high| - 1];
      assert low + high == (low + high') + [last];
      assert (low + high)[..|low + high| - 1] == low + high';
      InsertBetween(low, high', x, priorities);
      assert low + [x] + high == (low + [x] + high') + [last];
    }
  }

  /** The group of non-promoted elements holds no promoted one, and the promoted group only promoted ones. */
  lemma KeptGroups<E>(xs: seq<E>, priorities: seq<E>)
    ensures forall y :: y in Kept(xs, priorities, false) ==> y !in priorities
    ensures forall y :: y in Kept(xs, priorities, true) ==> y in priorities
  {
    KeptMembers(xs, priorities, false);
    KeptMembers(xs, priorities, true);
  }

  /** Splitting two groups joined in either order gives the groups back. */
  lemma KeptOfGroups<E>(low: seq<E>, high: seq<E>, priorities: seq<E>)
    requires forall y :: y in low ==> y !in priorities
    requires forall y :: y in high ==> y in priorities
    ensures Kept(low + high, priorities, false) == low && Kept(low + high, priorities, true) == high
    ensures Kept(high + low, priorities, false) == low && Kept(high + low, priorities, true) == high
  {
    KeptUniform(low, priorities, false);
    KeptUniform(high, priorities, true);
    KeptDistributes(low, high, priorities, false);
    KeptDistributes(low, high, priorities, true);
    KeptDistributes(high, low, priorities, false);
    KeptDistributes(high, low, priorities, true);
    assert [] + high == high && low + [] == low;
    assert [] + low == low && high + [] == high;
  }

  /** The insertion sort computes the stable partition: `sortedBy` on membership is exactly "non-promoted, then promoted". */
  lemma {:induction false} SortedIsPartition<E>(xs: seq<E>, priorities: seq<E>)
    ensures SortedByMembership(xs, priorities) == Partition(xs, priorities)
    decreases |xs|
  {
    if xs != [] {
      var xs' := xs[..|xs| - 1];
      var x := xs[|xs| - 1];
      assert xs == xs' + [x];
      SortedIsPartition(xs', priorities);
      KeptSnoc(xs', x, priorities, false);
      KeptSnoc(xs', x, priorities, true);
      var low := Kept(xs', priorities, false);
      var high := Kept(xs', priorities, true);
      if x in priorities {
        assert low + high + [x] == low + (high + [x]);
      } else {
        KeptGroups(xs', priorities);
        InsertBetween(low, high, x, priorities);
      }
    }
  }

  /**
   * The order `sortedBy { it in priorities }` produces: a permutation of its
   * input; stable within each group; and every element that is not promoted
   * comes before every element that is.
   */
  lemma PartitionProperties<E>(xs: seq<E>, priorities: seq<E>)
    ensures var r := Partition(xs, priorities);
      && multiset(r) == multiset(xs)
      && Kept(r, priorities, false) == Kept(xs, priorities, false)
      && Kept(r, priorities, true) == Kept(xs, priorities, true)
      && forall i, j :: 0 <= i < j < |r| && r[i] in priorities ==> r[j] in priorities
  {
    var low := Kept(xs, priorities, false);
    var high := Kept(xs, priorities, true);
    var r := low + high;
    KeptSplitsMultiset(xs, priorities);
    KeptGroups(xs, priorities);
    KeptOfGroups(low, high, priorities);
    PromotedLastOrder(low, high, priorities);
  }

  lemma PromotedLastOrder<E>(low: seq<E>, high: seq<E>, priorities: seq<E>)
    requires forall y :: y in low ==> y !in priorities
    requires forall y :: y in high ==> y in priorities
    ensures var r := low + high;
      forall i, j :: 0 <= i < j < |r| && r[i] in priorities ==> r[j] in priorities
  {
    var r := low + high;
    forall i, j | 0 <= i < j < |r| && r[i] in priorities ensures r[j] in priorities {
      if i >= |low| {
        assert r[j] == high[j - |low|];
        assert r[j] in high;
      }
    }
  }

  /** With no pulled element promoted (in particular with `priorities` empty), either order leaves the list as it was. */
  lemma NothingPromotedKeepsOrder<E>(xs: seq<E>, priorities: seq<E>)
    ensures (forall x :: x in xs ==> x !in priorities) ==>
      SortedByMembership(xs, priorities) == xs && PromotedFirst(xs, priorities) == xs
  {
    if forall x :: x in xs ==> x !in priorities {
      SortedIsPartition(xs, priorities);
      KeptUniform(xs, priorities, false);
      assert xs + [] == xs;
      assert [] + xs == xs;
    }
  }

  // ---------------------------------------------------------------------------
  // The task
  // ---------------------------------------------------------------------------

  /**
   * The state that PrioritizeCoroutineTask adds to the task it extends: the
   * list of promoted elements. Duplicates are kept, as a mutable list keeps them.
   */
  class PrioritizeTask<E(==)> {
    var priorities: seq<E>

    constructor ()
      ensures priorities == []
    {
      priorities := [];
    }

    /** `promote(element)`: appends to the list, keeping any earlier occurrence. */
    method Promote(element: E)
      modifies this
      ensures priorities == old(priorities) + [element]
      ensures |priorities| == |old(priorities)| + 1 && element in priorities
    {
      priorities := priorities + [element];
    }

    /** `clear()`: empties the list. */
    method Clear()
      modifies this
      ensures priorities == []
    {
      priorities := [];
    }

    /**
     * `filterHandleable(all, histories)`, with `base` the list the inherited
     * filter returns: that list sorted by membership in `priorities`. The
     * result is a permutation of `base`, each group keeps its base order, and
     * the promoted elements come last.
     */
    function FilterHandleable(base: seq<E>): (r: seq<E>)
      reads this
      ensures multiset(r) == multiset(base)
      ensures Kept(r, priorities, false) == Kept(base, priorities, false)
      ensures Kept(r, priorities, true) == Kept(base, priorities, true)
      ensures forall i, j :: 0 <= i < j < |r| && r[i] in priorities ==> r[j] in priorities
      ensures (forall x :: x in base ==> x !in priorities) ==> r == base
    {
      SortedIsPartition(base, priorities);
      PartitionProperties(base, priorities);
      NothingPromotedKeepsOrder(base, priorities);
      SortedByMembership(base, priorities)
    }
  }

  // ---------------------------------------------------------------------------
  // Promoted elements first
  // ---------------------------------------------------------------------------

  /**
   * The order a promotion is meant to produce: the promoted elements first,
   * then the others, each group in its base order (`sortedByDescending`
   * on the same key).
   */
  function PromotedFirst<E(==)>(base: seq<E>, priorities: seq<E>): (r: seq<E>)
    ensures multiset(r) == multiset(base)
    ensures Kept(r, priorities, true) == Kept(base, priorities, true)
    ensures Kept(r, priorities, false) == Kept(base, priorities, false)
    ensures forall i, j :: 0 <= i < j < |r| && r[j] in priorities ==> r[i] in priorities
  {
    var high := Kept(base, priorities, true);
    var low := Kept(base, priorities, false);
    KeptSplitsMultiset(base, priorities);
    KeptGroups(base, priorities);
    KeptOfGroups(low, high, priorities);
    PromotedFirstOrder(high, low, priorities);
    high + low
  }

  lemma PromotedFirstOrder<E>(high: seq<E>, low: seq<E>, priorities: seq<E>)
    requires forall y :: y in low ==> y !in priorities
    requires forall y :: y in high ==> y in priorities
    ensures var r := high + low;
      forall i, j :: 0 <= i < j < |r| && r[j] in priorities ==> r[i] in priorities
  {
    var r := high + low;
    forall i, j | 0 <= i < j < |r| && r[j] in priorities ensures r[i] in priorities {
      if j < |high| {
        assert r[i] == high[i];
        assert r[i] in high;
      }
    }
  }

  /** The two orders hold the same two groups and differ only in which group comes first. */
  lemma OrdersSwapGroups<E>(xs: seq<E>, priorities: seq<E>)
    ensures SortedByMembership(xs, priorities) == Kept(xs, priorities, false) + Kept(xs, priorities, true)
    ensures PromotedFirst(xs, priorities) == Kept(xs, priorities, true) + Kept(xs, priorities, false)
  {
    SortedIsPartition(xs, priorities);
  }

  /** The two groups of a, b, c when only b is promoted. */
  lemma KeptOfThree<E>(a: E, b: E, c: E)
    requires a != b && b != c
    ensures Kept([a, b, c], [b], false) == [a, c]
    ensures Kept([a, b, c], [b], true) == [b]
  {
    assert a !in [b] && b in [b] && c !in [b];
    assert [a][..0] == [];
    assert Kept([a], [b], false) == [a];
    assert Kept([a], [b], true) == [];
    assert [a, b][..1] == [a];
    assert Kept([a, b], [b], false) == [a];
    assert Kept([a, b], [b], true) == [b];
    assert [a, b, c][..2] == [a, b];
  }

  /** Handleable elements a, b, c with b promoted: as written, b is handled last. */
  lemma PromotedHandledLast<E>(a: E, b: E, c: E)
    requires a != b && b != c
    ensures SortedByMembership([a, b, c], [b]) == [a, c, b]
  {
    KeptOfThree(a, b, c);
    SortedIsPartition([a, b, c], [b]);
  }

  /** Handleable elements a, b, c with b promoted: putting promoted elements first yields b, a, c. */
  lemma PromotedHandledFirst<E>(a: E, b: E, c: E)
    requires a != b && b != c
    ensures PromotedFirst([a, b, c], [b]) == [b, a, c]
  {
    KeptOfThree(a, b, c);
  }
}
