/**
 * The list of expanded ids and the pure update that a toggle applies to it:
 * remove the id when present (a filter), append it otherwise.
 */
module Expansion {

  /** No id occurs twice. */
  predicate NoDuplicates(s: seq<string>) {
    forall i, j :: 0 <= i < j < |s| ==> s[i] != s[j]
  }

  /**
   * The list with every occurrence of `x` filtered out, the others kept in
   * their order.
   */
  function Without(s: seq<string>, x: string): (r: seq<string>)
    ensures x !in r
    ensures forall y :: y != x ==> (y in r <==> y in s)
    ensures x in s ==> |r| < |s|
    ensures x !in s ==> r == s
    ensures NoDuplicates(s) ==> NoDuplicates(r)
  {
    if s == [] then []
    else if s[0] == x then Without(s[1..], x)
    else
      var rest := Without(s[1..], x);
      assert NoDuplicates(s) ==> NoDuplicates(s[1..]) && s[0] !in s[1..] && s[0] !in rest;
      [s[0]] + rest
  }

  /**
   * The update that toggling `x` applies to the expanded ids: afterwards `x`
   * is present exactly when it was absent, every other id keeps its
   * membership, and a list without duplicates stays without duplicates.
   */
  function Toggled(s: seq<string>, x: string): (r: seq<string>)
    ensures x in r <==> x !in s
    ensures forall y :: y != x ==> (y in r <==> y in s)
    ensures NoDuplicates(s) ==> NoDuplicates(r)
  {
    if x in s then Without(s, x) else s + [x]
  }

  /** The expanded ids after a sequence of toggles applied to the initial empty list. */
  function AfterToggles(xs: seq<string>): seq<string>
    decreases |xs|
  {
    if xs == [] then [] else Toggled(AfterToggles(xs[..|xs| - 1]), xs[|xs| - 1])
  }

  /** Filtering distributes over concatenation. */
  lemma {:induction false} WithoutConcat(a: seq<string>, b: seq<string>, x: string)
    ensures Without(a + b, x) == Without(a, x) + Without(b, x)
  {
    if a == [] {
      assert a + b == b;
    } else {
      assert (a + b)[1..] == a[1..] + b;
      WithoutConcat(a[1..], b, x);
    }
  }

  /**
   * Removing a present id from a list without duplicates drops just its
   * position and keeps the remaining ids in their relative order.
   */
  lemma {:induction false} WithoutDropsPosition(s: seq<string>, x: string, i: nat)
    requires NoDuplicates(s) && i < |s| && s[i] == x
    ensures Without(s, x) == s[..i] + s[i + 1..]
  {
    var tail := s[1..];
    assert s == [s[0]] + tail;
    if i == 0 {
      assert x !in tail by {
        forall k | 0 <= k < |tail| ensures tail[k] != x {
          assert tail[k] == s[k + 1];
        }
      }
      assert Without(s, x) == Without(tail, x);
    } else {
      assert s[0] != x;
      assert NoDuplicates(tail) by {
        forall a, b | 0 <= a < b < |tail| ensures tail[a] != tail[b] {
          assert tail[a] == s[a + 1] && tail[b] == s[b + 1];
        }
      }
      assert tail[i - 1] == x;
      WithoutDropsPosition(tail, x, i - 1);
      assert Without(s, x) == [s[0]] + Without(tail, x);
      assert tail[..i - 1] == s[1..i];
      assert tail[i..] == s[i + 1..];
      assert s[..i] == [s[0]] + s[1..i];
    }
  }

  /**
   * Where a toggle puts things: an absent id goes to the end; a present one
   * is taken out of its position and the rest keep their order.
   */
  lemma ToggleOrder(s: seq<string>, x: string)
    requires NoDuplicates(s)
    ensures x !in s ==> Toggled(s, x) == s + [x] && Toggled(s, x)[|s|] == x
    ensures forall i :: 0 <= i < |s| && s[i] == x ==> Toggled(s, x) == s[..i] + s[i + 1..]
  {
    forall i | 0 <= i < |s| && s[i] == x
      ensures Toggled(s, x) == s[..i] + s[i + 1..]
    {
      WithoutDropsPosition(s, x, i);
    }
  }

  /**
   * Two toggles of the same id restore the members. An id that was absent
   * leaves the list exactly as it was; one that was present comes back at
   * the end of the list, so the order need not be restored.
   */
  lemma ToggleTwice(s: seq<string>, x: string)
    ensures forall y :: y in Toggled(Toggled(s, x), x) <==> y in s
    ensures x !in s ==> Toggled(Toggled(s, x), x) == s
    ensures x in s ==> Toggled(Toggled(s, x), x) == Without(s, x) + [x]
  {
    if x !in s {
      WithoutConcat(s, [x], x);
    }
  }

  /** A double toggle of an id that is not the last one changes the order. */
  lemma ToggleTwiceReorders()
    ensures Toggled(Toggled(["requirements", "uml"], "requirements"), "requirements") == ["uml", "requirements"]
  {
    assert ["requirements", "uml"][1..] == ["uml"];
  }

  /** Starting from the initial empty list, no sequence of toggles creates a duplicate. */
  lemma {:induction false} ReachableNoDuplicates(xs: seq<string>)
    ensures NoDuplicates(AfterToggles(xs))
    decreases |xs|
  {
    if xs != [] {
      ReachableNoDuplicates(xs[..|xs| - 1]);
    }
  }
}
