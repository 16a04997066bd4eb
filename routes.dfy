/**
 * Paths over the sea map as both search engines build them: a path is the
 * sequence of cells after the starting one, each a neighbour of the one
 * before. Also the list operations the engines use (reversal, removing an
 * element, filtering one cell out) and the rule that picks between the direct
 * route and the route through Tortuga.
 */
module Routes {
  import opened Agents
  
  /**
   * `steps` leaves `from` one neighbour at a time, `adj` giving each cell's
   * neighbours (on a map: what `getNeighbourCells` returns).
   */
  predicate IsWalk(adj: Point -> set<Point>, from: Point, steps: seq<Point>)
    decreases |steps|
  {
    steps == [] || (steps[0] in adj(from) && IsWalk(adj, steps[0], steps[1..]))
  }

  /** The cell a walk from `from` ends on. */
  function End(from: Point, steps: seq<Point>): Point
  {
    if steps == [] then from else steps[|steps| - 1]
  }

  /** A step onto `next` followed by a walk from `next` is a walk. */
  lemma {:induction false} WalkCons(adj: Point -> set<Point>, from: Point, next: Point, steps: seq<Point>)
    requires next in adj(from)
    requires IsWalk(adj, next, steps)
    ensures IsWalk(adj, from, [next] + steps)
    ensures End(from, [next] + steps) == End(next, steps)
  {
    assert ([next] + steps)[1..] == steps;
  }

  /** Two walks joined end to start make one walk, ending where the second ends. */
  lemma {:induction false} WalkConcat(adj: Point -> set<Point>, from: Point, first: seq<Point>, second: seq<Point>)
    requires IsWalk(adj, from, first)
    requires IsWalk(adj, End(from, first), second)
    ensures IsWalk(adj, from, first + second)
    ensures End(from, first + second) == End(End(from, first), second)
    decreases |first|
  {
    if first != [] {
      WalkConcat(adj, first[0], first[1..], second);
      assert first == [first[0]] + first[1..];
      assert End(first[0], first[1..]) == End(from, first);
      WalkCons(adj, from, first[0], first[1..] + second);
      assert first + second == [first[0]] + (first[1..] + second);
    } else {
      assert first + second == second;
    }
  }

  /**
   * A set of cells that holds `from` and every walkable neighbour of its
   * members holds the end of every walk over walkable cells from `from`.
   */
  lemma {:induction false} WalkStaysInside(adj: Point -> set<Point>, inside: set<Point>,
                                           walkable: set<Point>, from: Point, steps: seq<Point>)
    requires from in inside
    requires forall c, n :: c in inside && n in adj(c) && n in walkable ==> n in inside
    requires IsWalk(adj, from, steps)
    requires forall i :: 0 <= i < |steps| ==> steps[i] in walkable
    ensures End(from, steps) in inside
    decreases |steps|
  {
    if steps != [] {
      assert steps[0] in adj(from) && steps[0] in walkable;
      WalkStaysInside(adj, inside, walkable, steps[0], steps[1..]);
      assert End(steps[0], steps[1..]) == End(from, steps);
    }
  }

  /** No walk from `from` over cells of `inside` ends on `to`. */
  ghost predicate Unreached(adj: Point -> set<Point>, from: Point, to: Point, inside: set<Point>)
  {
    forall steps :: IsWalk(adj, from, steps) && (forall i :: 0 <= i < |steps| ==> steps[i] in inside) ==> End(from, steps) != to
  }

  /** `Collections.reverse`: the list back to front. */
  function Reversed<T>(s: seq<T>): (r: seq<T>)
    ensures |r| == |s|
    ensures forall i :: 0 <= i < |s| ==> r[i] == s[|s| - 1 - i]
  {
    if s == [] then [] else Reversed(s[1..]) + [s[0]]
  }

  /** Reversing a list with one more element at the back puts that element in front. */
  lemma ReversedSnoc<T>(s: seq<T>, x: T)
    ensures Reversed(s + [x]) == [x] + Reversed(s)
  {
  }

  /** `List.remove(x)`: drop the first occurrence of `x`, if any. */
  function RemoveFirst(s: seq<Point>, x: Point): (r: seq<Point>)
    ensures x in s ==> |r| == |s| - 1
    ensures x !in s ==> r == s
    ensures forall y :: y in r ==> y in s
    ensures forall y :: y in s && y != x ==> y in r
    ensures Distinct(s) ==> Distinct(r) && x !in r
  {
    if s == [] then []
    else
      assert Distinct(s) ==> Distinct(s[1..]) && s[0] !in s[1..] by {
        if Distinct(s) {
          forall k | 0 <= k < |s| - 1 ensures s[1..][k] != s[0] { assert s[1..][k] == s[k + 1]; }
        }
      }
      if s[0] == x then s[1..]
      else [s[0]] + RemoveFirst(s[1..], x)
  }

  /**
   * The order `List.remove(x)` keeps: the first occurrence of `x` is cut out
   * and the elements before and after it stay as they were.
   */
  lemma RemoveFirstSplits(s: seq<Point>, x: Point)
    requires x in s
    ensures exists i :: 0 <= i < |s| && s[i] == x && x !in s[..i] && RemoveFirst(s, x) == s[..i] + s[i + 1..]
  {
    var i :| 0 <= i < |s| && s[i] == x;
    while i > 0 && x in s[..i]
      invariant 0 <= i < |s| && s[i] == x
      decreases i
    {
      var j :| 0 <= j < i && s[..i][j] == x;
      i := j;
    }
    assert x !in s[..i];
    RemoveFirstAt(s, x, i);
  }

  /** `RemoveFirst` cuts out the element at the first index holding `x`. */
  lemma {:induction false} RemoveFirstAt(s: seq<Point>, x: Point, i: int)
    requires 0 <= i < |s| && s[i] == x && x !in s[..i]
    ensures RemoveFirst(s, x) == s[..i] + s[i + 1..]
  {
    if i > 0 {
      assert s[0] in s[..i];
      assert s[1..][..i - 1] == s[1..i];
      assert x !in s[1..][..i - 1];
      RemoveFirstAt(s[1..], x, i - 1);
      assert s[..i] == [s[0]] + s[1..][..i - 1];
      assert s[i + 1..] == s[1..][i - 1 + 1..];
    }
  }

  predicate Distinct<T(==)>(s: seq<T>)
  {
    forall i, j :: 0 <= i < j < |s| ==> s[i] != s[j]
  }

  /** The list with every occurrence of `x` skipped, order kept (the `continue` on Tortuga's cell). */
  function Without(s: seq<Point>, x: Point): (r: seq<Point>)
    ensures forall y :: y in r <==> y in s && y != x
    ensures |r| <= |s|
    ensures x !in s ==> r == s
  {
    if s == [] then []
    else if s[0] == x then Without(s[1..], x)
    else [s[0]] + Without(s[1..], x)
  }

  /** Skipping `x` in a single cell keeps it exactly when it is not `x`. */
  lemma WithoutOne(y: Point, x: Point)
    ensures Without([y], x) == if y == x then [] else [y]
  {
    assert [y][1..] == [];
  }

  /** Skipping `x` works piece by piece, so the kept cells stay in their order. */
  lemma {:induction false} WithoutConcat(a: seq<Point>, b: seq<Point>, x: Point)
    ensures Without(a + b, x) == Without(a, x) + Without(b, x)
  {
    if a == [] {
      assert a + b == b;
    } else {
      assert (a + b)[0] == a[0] && (a + b)[1..] == a[1..] + b;
      WithoutConcat(a[1..], b, x);
    }
  }

  /** Which route `findShortestPath` assembles. */
  datatype Choice = NoRoute | Direct | ViaTortuga

  /**
   * The choice between the direct route and the route through Tortuga, given
   * their lengths when they exist: no route when neither exists; otherwise the
   * shorter one, the direct route winning a tie.
   */
  function Choose(direct: Option<int>, viaTortuga: Option<int>): (c: Choice)
    ensures c == NoRoute <==> direct.None? && viaTortuga.None?
    ensures c == Direct ==> direct.Some? && (viaTortuga.Some? ==> direct.value <= viaTortuga.value)
    ensures c == ViaTortuga ==> viaTortuga.Some? && (direct.Some? ==> viaTortuga.value < direct.value)
  {
    if (viaTortuga.Some? && direct.Some? && viaTortuga.value < direct.value) ||
       (viaTortuga.Some? && direct.None?)
    then ViaTortuga
    else if direct.None? && viaTortuga.None? then NoRoute
    else Direct
  }
}
