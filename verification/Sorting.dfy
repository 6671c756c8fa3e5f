/** Stable insertion into a sequence kept in a strict order, and the uniqueness of the result. */
module Sorting {
  ghost predicate StrictOrder<T(!new)>(before: (T, T) -> bool) {
    && (forall a :: !before(a, a))
    && (forall a, b, c :: before(a, b) && before(b, c) ==> before(a, c))
  }

  /** `x` placed behind the last item that comes before it. */
  function Placed<T>(items: seq<T>, x: T, before: (T, T) -> bool): seq<T> {
    if items == [] then [x]
    else
      var last := items[|items| - 1];
      if before(last, x) then items + [x] else Placed(items[..|items| - 1], x, before) + [last]
  }

  /** A chain in order; in a strict order every earlier item comes before every later one. */
  predicate Ordered<T>(items: seq<T>, before: (T, T) -> bool) {
    |items| < 2 ||
    (Ordered(items[..|items| - 1], before) && before(items[|items| - 2], items[|items| - 1]))
  }

  lemma {:induction false} OrderedPairs<T(!new)>(items: seq<T>, before: (T, T) -> bool, i: nat, j: nat)
    requires StrictOrder(before) && Ordered(items, before) && i < j < |items|
    ensures before(items[i], items[j])
    decreases |items|
  {
    if j < |items| - 1 {
      OrderedPairs(items[..|items| - 1], before, i, j);
    } else if i < j - 1 {
      OrderedPairs(items[..|items| - 1], before, i, j - 1);
      assert before(items[i], items[j - 1]) && before(items[j - 1], items[j]);
    }
  }

  lemma {:induction false} PlacedHas<T>(items: seq<T>, x: T, before: (T, T) -> bool, y: T)
    ensures y in Placed(items, x, before) <==> y in items || y == x
    decreases |items|
  {
    if items != [] {
      PlacedHas(items[..|items| - 1], x, before, y);
      assert items == items[..|items| - 1] + [items[|items| - 1]];
    }
  }

  lemma {:induction false} PlacedAdds<T>(items: seq<T>, x: T, before: (T, T) -> bool)
    ensures multiset(Placed(items, x, before)) == multiset(items) + multiset{x}
    decreases |items|
  {
    if items != [] {
      PlacedAdds(items[..|items| - 1], x, before);
      assert items == items[..|items| - 1] + [items[|items| - 1]];
    }
  }

  lemma AppendOrdered<T>(items: seq<T>, x: T, before: (T, T) -> bool)
    requires Ordered(items, before) && (items == [] || before(items[|items| - 1], x))
    ensures Ordered(items + [x], before)
  {
    assert (items + [x])[..|items|] == items;
  }

  lemma {:induction false} PlacedInOrder<T>(items: seq<T>, x: T, before: (T, T) -> bool)
    requires Ordered(items, before)
    requires forall y <- items :: before(y, x) || before(x, y)
    ensures Ordered(Placed(items, x, before), before)
    ensures var placed := Placed(items, x, before);
            placed != [] && (placed[|placed| - 1] == x || (items != [] && placed[|placed| - 1] == items[|items| - 1]))
    decreases |items|
  {
    if items != [] {
      var front, last := items[..|items| - 1], items[|items| - 1];
      assert last in items;
      if before(last, x) {
        AppendOrdered(items, x, before);
      } else {
        PlacedInOrder(front, x, before);
        AppendOrdered(Placed(front, x, before), last, before);
      }
    }
  }

  // ----- one order, one sequence

  lemma LastIsLatest<T(!new)>(items: seq<T>, before: (T, T) -> bool, y: T)
    requires StrictOrder(before) && Ordered(items, before) && y in items
    ensures y == items[|items| - 1] || before(y, items[|items| - 1])
  {
    var i :| 0 <= i < |items| && items[i] == y;
    if i < |items| - 1 {
      OrderedPairs(items, before, i, |items| - 1);
    }
  }

  lemma FrontHas<T(!new)>(items: seq<T>, before: (T, T) -> bool, y: T)
    requires StrictOrder(before) && Ordered(items, before) && items != []
    ensures y in items[..|items| - 1] <==> y in items && y != items[|items| - 1]
  {
    var front, last := items[..|items| - 1], items[|items| - 1];
    assert items == front + [last];
    if y in front {
      var i :| 0 <= i < |front| && front[i] == y;
      OrderedPairs(items, before, i, |front|);
    }
  }

  lemma EmptyOrLast<T>(items: seq<T>)
    ensures items == [] || items[|items| - 1] in items
  {
  }

  lemma SameLast<T(!new)>(a: seq<T>, b: seq<T>, before: (T, T) -> bool)
    requires StrictOrder(before) && Ordered(a, before) && Ordered(b, before) && a != [] && b != []
    requires forall y :: y in a <==> y in b
    ensures a[|a| - 1] == b[|b| - 1]
  {
    var x, y := a[|a| - 1], b[|b| - 1];
    EmptyOrLast(a);
    EmptyOrLast(b);
    LastIsLatest(a, before, y);
    LastIsLatest(b, before, x);
  }

  lemma SameFronts<T(!new)>(a: seq<T>, b: seq<T>, before: (T, T) -> bool, frontA: seq<T>, frontB: seq<T>)
    requires StrictOrder(before) && Ordered(a, before) && Ordered(b, before) && a != [] && b != []
    requires a[|a| - 1] == b[|b| - 1] && forall y :: y in a <==> y in b
    requires frontA == a[..|a| - 1] && frontB == b[..|b| - 1]
    ensures forall y :: y in frontA <==> y in frontB
  {
    forall y ensures y in frontA <==> y in frontB {
      FrontHas(a, before, y);
      FrontHas(b, before, y);
    }
  }

  lemma Rejoined<T>(a: seq<T>, b: seq<T>)
    requires a != [] && b != [] && a[..|a| - 1] == b[..|b| - 1] && a[|a| - 1] == b[|b| - 1]
    ensures a == b
  {
    assert a == a[..|a| - 1] + [a[|a| - 1]] && b == b[..|b| - 1] + [b[|b| - 1]];
  }

  /** Two ordered sequences of the same items are the same. */
  lemma {:induction false} OrderIsUnique<T(!new)>(a: seq<T>, b: seq<T>, before: (T, T) -> bool)
    requires StrictOrder(before) && Ordered(a, before) && Ordered(b, before)
    requires forall y :: y in a <==> y in b
    ensures a == b
    decreases |a|
  {
    EmptyOrLast(a);
    EmptyOrLast(b);
    if a != [] {
      SameLast(a, b, before);
      SameFronts(a, b, before, a[..|a| - 1], b[..|b| - 1]);
      OrderIsUnique(a[..|a| - 1], b[..|b| - 1], before);
      Rejoined(a, b);
    }
  }
}
