/**
 The bounded edit distance.
 */
module EditDistance {
  /**
   Source: packages/core/src/sbom-diff.ts:291-335.

   The reference definition is an edit script: a list of edits that reads the left
   string and writes the right one, where a swap consumes two adjacent elements and no
   element is edited twice.  The distance is the least cost of such a script.
   */
  import opened Wrappers

  datatype Edit<T> =
    | Keep(kept: T)
    | Replace(from: T, to: T)
    | Insert(added: T)
    | Delete(removed: T)
    | Swap(first: T, second: T)
  {
    function Reads(): seq<T> {
      match this
      case Keep(c) => [c]
      case Replace(a, _) => [a]
      case Insert(_) => []
      case Delete(a) => [a]
      case Swap(a, b) => [a, b]
    }

    function Writes(): seq<T> {
      match this
      case Keep(c) => [c]
      case Replace(_, b) => [b]
      case Insert(b) => [b]
      case Delete(_) => []
      case Swap(a, b) => [b, a]
    }

    function Cost(): nat {
      if Keep? then 0 else 1
    }
  }

  function Source<T>(script: seq<Edit<T>>): seq<T> {
    if script == [] then [] else Source(script[..|script| - 1]) + script[|script| - 1].Reads()
  }

  function Target<T>(script: seq<Edit<T>>): seq<T> {
    if script == [] then [] else Target(script[..|script| - 1]) + script[|script| - 1].Writes()
  }

  function Cost<T>(script: seq<Edit<T>>): nat {
    if script == [] then 0 else Cost(script[..|script| - 1]) + script[|script| - 1].Cost()
  }

  predicate Swapped<T(==)>(l: seq<T>, r: seq<T>, i: nat, j: nat)
    requires i <= |l| && j <= |r|
  {
    i > 1 && j > 1 && l[i - 1] == r[j - 2] && l[i - 2] == r[j - 1]
  }

  /** Delete, insert, keep or replace, and where two adjacent elements crossed, swap. */
  function Cell(up: nat, left: nat, diagonal: nat, same: bool, crossed: Option<nat>): nat {
    var best := Min(Min(up + 1, left + 1), diagonal + (if same then 0 else 1));
    if crossed.Some? then Min(best, crossed.value + 1) else best
  }

  /** The unbounded recurrence: the distance between the first i of l and the first j of r. */
  function Osa<T(==)>(l: seq<T>, r: seq<T>, i: nat, j: nat): nat
    requires i <= |l| && j <= |r|
    decreases i + j
  {
    if i == 0 then j
    else if j == 0 then i
    else
      Cell(Osa(l, r, i - 1, j), Osa(l, r, i, j - 1), Osa(l, r, i - 1, j - 1), l[i - 1] == r[j - 1],
           if Swapped(l, r, i, j) then Some(Osa(l, r, i - 2, j - 2)) else None)
  }

  function Distance<T(==)>(l: seq<T>, r: seq<T>): nat {
    Osa(l, r, |l|, |r|)
  }

  // ----- the recurrence is the least script cost

  /** e can be the last edit of a script for the first i of l and the first j of r. */
  ghost predicate Fits<T>(e: Edit<T>, l: seq<T>, r: seq<T>, i: nat, j: nat)
    requires i <= |l| && j <= |r|
  {
    match e
    case Keep(c) => i > 0 && j > 0 && l[i - 1] == c == r[j - 1]
    case Replace(a, b) => i > 0 && j > 0 && l[i - 1] == a && r[j - 1] == b
    case Insert(b) => j > 0 && r[j - 1] == b
    case Delete(a) => i > 0 && l[i - 1] == a
    case Swap(a, b) => Swapped(l, r, i, j) && l[i - 2] == a && l[i - 1] == b
  }

  lemma LastOne<T>(s: seq<T>, i: nat, x: T)
    requires 0 < i <= |s|
    ensures s[i - 1..i] == [x] <==> s[i - 1] == x
  {
    assert s[i - 1..i] == [s[i - 1]];
  }

  lemma LastTwo<T>(s: seq<T>, i: nat, x: T, y: T)
    requires 1 < i <= |s|
    ensures s[i - 2..i] == [x, y] <==> s[i - 2] == x && s[i - 1] == y
  {
    assert s[i - 2..i] == [s[i - 2], s[i - 1]];
    assert [x, y][0] == x && [x, y][1] == y;
  }

  lemma FitsIffSlices<T>(e: Edit<T>, l: seq<T>, r: seq<T>, i: nat, j: nat)
    requires i <= |l| && j <= |r| && |e.Reads()| <= i && |e.Writes()| <= j
    ensures Fits(e, l, r, i, j) <==>
            l[i - |e.Reads()|..i] == e.Reads() && r[j - |e.Writes()|..j] == e.Writes()
  {
    match e {
      case Keep(c) => LastOne(l, i, c); LastOne(r, j, c);
      case Replace(a, b) => LastOne(l, i, a); LastOne(r, j, b);
      case Insert(b) => LastOne(r, j, b);
      case Delete(a) => LastOne(l, i, a);
      case Swap(a, b) => LastTwo(l, i, a, b); LastTwo(r, j, b, a);
    }
  }

  lemma CellAtMost(up: nat, left: nat, diagonal: nat, same: bool, crossed: Option<nat>)
    ensures Cell(up, left, diagonal, same, crossed) <= up + 1
    ensures Cell(up, left, diagonal, same, crossed) <= left + 1
    ensures Cell(up, left, diagonal, same, crossed) <= diagonal + (if same then 0 else 1)
    ensures crossed.Some? ==> Cell(up, left, diagonal, same, crossed) <= crossed.value + 1
  {
  }

  /** One edit more costs at most that edit. */
  lemma OneMoreEdit<T>(l: seq<T>, r: seq<T>, i: nat, j: nat, e: Edit<T>)
    requires i <= |l| && j <= |r| && Fits(e, l, r, i, j)
    ensures Osa(l, r, i, j) <= Osa(l, r, i - |e.Reads()|, j - |e.Writes()|) + e.Cost()
  {
    if i > 0 && j > 0 {
      CellAtMost(Osa(l, r, i - 1, j), Osa(l, r, i, j - 1), Osa(l, r, i - 1, j - 1), l[i - 1] == r[j - 1],
                 if Swapped(l, r, i, j) then Some(Osa(l, r, i - 2, j - 2)) else None);
    }
  }

  lemma SplitLast<T>(s: seq<T>, init: seq<T>, tail: seq<T>, i: nat, all: seq<T>)
    requires i <= |all| && s == init + tail && s == all[..i]
    ensures |tail| <= i && init == all[..i - |tail|] && tail == all[i - |tail|..i]
  {
    assert init == s[..|init|] && tail == s[|init|..];
  }

  lemma {:induction false} EveryScriptCostsAtLeast<T>(l: seq<T>, r: seq<T>, i: nat, j: nat, script: seq<Edit<T>>)
    requires i <= |l| && j <= |r|
    requires Source(script) == l[..i] && Target(script) == r[..j]
    ensures Cost(script) >= Osa(l, r, i, j)
    decreases |script|
  {
    if script == [] {
      assert i == |Source(script)| == 0 && j == |Target(script)| == 0;
    } else {
      var last, init := script[|script| - 1], script[..|script| - 1];
      SplitLast(Source(script), Source(init), last.Reads(), i, l);
      SplitLast(Target(script), Target(init), last.Writes(), j, r);
      EveryScriptCostsAtLeast(l, r, i - |last.Reads()|, j - |last.Writes()|, init);
      FitsIffSlices(last, l, r, i, j);
      OneMoreEdit(l, r, i, j, last);
    }
  }

  lemma ScriptSnoc<T>(script: seq<Edit<T>>, e: Edit<T>)
    ensures Source(script + [e]) == Source(script) + e.Reads()
    ensures Target(script + [e]) == Target(script) + e.Writes()
    ensures Cost(script + [e]) == Cost(script) + e.Cost()
  {
    assert (script + [e])[..|script + [e]| - 1] == script;
  }

  /** An edit that attains the minimum of the recurrence at (i, j). */
  ghost function BestEdit<T>(l: seq<T>, r: seq<T>, i: nat, j: nat): (e: Edit<T>)
    requires i <= |l| && j <= |r| && i + j > 0
  {
    if j > 0 && Osa(l, r, i, j) == Osa(l, r, i, j - 1) + 1 then Insert(r[j - 1])
    else if i > 0 && Osa(l, r, i, j) == Osa(l, r, i - 1, j) + 1 then Delete(l[i - 1])
    else if l[i - 1] == r[j - 1] && Osa(l, r, i, j) == Osa(l, r, i - 1, j - 1) then Keep(l[i - 1])
    else if Osa(l, r, i, j) == Osa(l, r, i - 1, j - 1) + 1 then Replace(l[i - 1], r[j - 1])
    else Swap(l[i - 2], l[i - 1])
  }

  lemma OsaInside<T>(l: seq<T>, r: seq<T>, i: nat, j: nat)
    requires 0 < i <= |l| && 0 < j <= |r|
    ensures Osa(l, r, i, j)
         == Cell(Osa(l, r, i - 1, j), Osa(l, r, i, j - 1), Osa(l, r, i - 1, j - 1), l[i - 1] == r[j - 1],
                 if Swapped(l, r, i, j) then Some(Osa(l, r, i - 2, j - 2)) else None)
  {
  }

  lemma OsaEdge<T>(l: seq<T>, r: seq<T>, i: nat, j: nat)
    requires i <= |l| && j <= |r| && (i == 0 || j == 0)
    ensures Osa(l, r, i, j) == i + j
  {
  }

  lemma BestEditAttains<T>(l: seq<T>, r: seq<T>, i: nat, j: nat)
    requires i <= |l| && j <= |r| && i + j > 0
    ensures var e := BestEdit(l, r, i, j);
            && |e.Reads()| + |e.Writes()| > 0 && Fits(e, l, r, i, j)
            && Osa(l, r, i, j) == Osa(l, r, i - |e.Reads()|, j - |e.Writes()|) + e.Cost()
  {
    hide Osa;
    if i > 0 && j > 0 {
      OsaInside(l, r, i, j);
    } else {
      OsaEdge(l, r, i, j);
      if j > 0 {
        OsaEdge(l, r, i, j - 1);
      } else {
        OsaEdge(l, r, i - 1, j);
      }
    }
  }

  lemma TakeSplit<T>(s: seq<T>, i: nat, k: nat)
    requires k <= i <= |s|
    ensures s[..i] == s[..k] + s[k..i]
  {
  }

  lemma {:induction false} BestScript<T>(l: seq<T>, r: seq<T>, i: nat, j: nat) returns (script: seq<Edit<T>>)
    requires i <= |l| && j <= |r|
    ensures Source(script) == l[..i] && Target(script) == r[..j] && Cost(script) == Osa(l, r, i, j)
    decreases i + j
  {
    if i + j == 0 {
      script := [];
    } else {
      var e := BestEdit(l, r, i, j);
      BestEditAttains(l, r, i, j);
      FitsIffSlices(e, l, r, i, j);
      TakeSplit(l, i, i - |e.Reads()|);
      TakeSplit(r, j, j - |e.Writes()|);
      var init := BestScript(l, r, i - |e.Reads()|, j - |e.Writes()|);
      ScriptSnoc(init, e);
      script := init + [e];
    }
  }

  ghost predicate Rewrites<T>(script: seq<Edit<T>>, l: seq<T>, r: seq<T>) {
    Source(script) == l && Target(script) == r
  }

  /** Distance is attained by some script and beaten by none. */
  lemma DistanceIsLeastScriptCost<T>(l: seq<T>, r: seq<T>)
    ensures exists script :: Rewrites(script, l, r) && Cost(script) == Distance(l, r)
    ensures forall script :: Rewrites(script, l, r) ==> Cost(script) >= Distance(l, r)
  {
    assert l[..|l|] == l && r[..|r|] == r;
    var best := BestScript(l, r, |l|, |r|);
    assert Rewrites(best, l, r);
    forall script | Rewrites(script, l, r)
      ensures Cost(script) >= Distance(l, r)
    {
      EveryScriptCostsAtLeast(l, r, |l|, |r|, script);
    }
  }

  function Undo<T>(e: Edit<T>): Edit<T> {
    match e
    case Keep(c) => Keep(c)
    case Replace(a, b) => Replace(b, a)
    case Insert(b) => Delete(b)
    case Delete(a) => Insert(a)
    case Swap(a, b) => Swap(b, a)
  }

  function Reverse<T>(script: seq<Edit<T>>): seq<Edit<T>> {
    if script == [] then [] else Reverse(script[..|script| - 1]) + [Undo(script[|script| - 1])]
  }

  lemma UndoSwapsSides<T>(e: Edit<T>)
    ensures Undo(e).Reads() == e.Writes() && Undo(e).Writes() == e.Reads() && Undo(e).Cost() == e.Cost()
  {
  }

  lemma {:induction false} ReverseRewrites<T>(script: seq<Edit<T>>)
    ensures Source(Reverse(script)) == Target(script) && Target(Reverse(script)) == Source(script)
    ensures Cost(Reverse(script)) == Cost(script)
    decreases |script|
  {
    if script != [] {
      ReverseRewrites(script[..|script| - 1]);
      UndoSwapsSides(script[|script| - 1]);
      ScriptSnoc(Reverse(script[..|script| - 1]), Undo(script[|script| - 1]));
    }
  }

  /** The distance does not depend on which name is the candidate. */
  lemma DistanceSymmetric<T>(l: seq<T>, r: seq<T>)
    ensures Distance(l, r) == Distance(r, l)
  {
    DistanceIsLeastScriptCost(l, r);
    DistanceIsLeastScriptCost(r, l);
    var s :| Rewrites(s, l, r) && Cost(s) == Distance(l, r);
    ReverseRewrites(s);
    assert Rewrites(Reverse(s), r, l);
    var t :| Rewrites(t, r, l) && Cost(t) == Distance(r, l);
    ReverseRewrites(t);
    assert Rewrites(Reverse(t), l, r);
  }

  lemma {:induction false} FreeScriptKeepsAll<T>(script: seq<Edit<T>>)
    requires Cost(script) == 0
    ensures Source(script) == Target(script)
    decreases |script|
  {
    if script != [] {
      FreeScriptKeepsAll(script[..|script| - 1]);
    }
  }

  lemma {:induction false} KeepAll<T>(s: seq<T>) returns (script: seq<Edit<T>>)
    ensures Rewrites(script, s, s) && Cost(script) == 0
    decreases |s|
  {
    if s == [] {
      script := [];
    } else {
      var init := KeepAll(s[..|s| - 1]);
      script := init + [Keep(s[|s| - 1])];
      ScriptSnoc(init, Keep(s[|s| - 1]));
      assert s == s[..|s| - 1] + [s[|s| - 1]];
    }
  }

  lemma DistanceZeroIffEqual<T>(l: seq<T>, r: seq<T>)
    ensures Distance(l, r) == 0 <==> l == r
  {
    DistanceIsLeastScriptCost(l, r);
    if Distance(l, r) == 0 {
      var s :| Rewrites(s, l, r) && Cost(s) == 0;
      FreeScriptKeepsAll(s);
    }
    if l == r {
      var script := KeepAll(l);
      assert Rewrites(script, l, r);
    }
  }

  // ----- why stopping early is safe

  lemma {:induction false} ScriptCostsAtLeastLengthGap<T>(script: seq<Edit<T>>)
    ensures |Source(script)| <= |Target(script)| + Cost(script)
    ensures |Target(script)| <= |Source(script)| + Cost(script)
    decreases |script|
  {
    if script != [] {
      ScriptCostsAtLeastLengthGap(script[..|script| - 1]);
      var last := script[|script| - 1];
      assert |last.Reads()| <= |last.Writes()| + last.Cost() && |last.Writes()| <= |last.Reads()| + last.Cost();
    }
  }

  lemma DistanceAtLeastLengthGap<T>(l: seq<T>, r: seq<T>)
    ensures |l| <= |r| + Distance(l, r) && |r| <= |l| + Distance(l, r)
  {
    DistanceIsLeastScriptCost(l, r);
    var best :| Rewrites(best, l, r) && Cost(best) == Distance(l, r);
    ScriptCostsAtLeastLengthGap(best);
  }

  ghost predicate RowExceeds<T>(l: seq<T>, r: seq<T>, i: nat, max: int)
    requires i <= |l|
  {
    forall j: nat :: j <= |r| ==> Osa(l, r, i, j) > max
  }

  /** One cell below a row that exceeds the bound.  A swap reaches two rows up, but one deletion
      connects that cell to the row in between. */
  lemma {:induction false} CellBelowExceeds<T>(l: seq<T>, r: seq<T>, i: nat, j: nat, max: int)
    requires i < |l| && j <= |r| && RowExceeds(l, r, i, max)
    ensures Osa(l, r, i + 1, j) > max
    decreases j
  {
    if j == 0 {
      assert Osa(l, r, i, 0) > max;
    } else {
      CellBelowExceeds(l, r, i, j - 1, max);
      assert Osa(l, r, i, j) > max && Osa(l, r, i, j - 1) > max;
      if Swapped(l, r, i + 1, j) {
        assert Osa(l, r, i, j - 2) > max;
      }
    }
  }

  lemma {:induction false} RowMinimaNeverShrink<T>(l: seq<T>, r: seq<T>, i: nat, k: nat, max: int)
    requires i <= k <= |l| && RowExceeds(l, r, i, max)
    ensures RowExceeds(l, r, k, max)
    decreases k
  {
    if i < k {
      RowMinimaNeverShrink(l, r, i, k - 1, max);
      forall j: nat | j <= |r| ensures Osa(l, r, k, j) > max {
        CellBelowExceeds(l, r, k - 1, j, max);
      }
    }
  }

  /** The first `width` cells of row i of the table. */
  ghost function Row<T>(l: seq<T>, r: seq<T>, i: nat, width: nat): seq<nat>
    requires i <= |l| && width <= |r| + 1
  {
    seq(width, j requires 0 <= j < width => Osa(l, r, i, j))
  }

  lemma RowSnoc<T>(l: seq<T>, r: seq<T>, i: nat, width: nat)
    requires i <= |l| && width <= |r|
    ensures Row(l, r, i, width + 1) == Row(l, r, i, width) + [Osa(l, r, i, width)]
  {
  }

  /** The loop body's cell, for rows that hold the recurrence. */
  lemma NextCell<T>(l: seq<T>, r: seq<T>, i: nat, j: nat, above: seq<nat>, up: seq<nat>, here: seq<nat>)
    requires 1 <= i <= |l| && 1 <= j <= |r|
    requires up == Row(l, r, i - 1, |r| + 1) && here == Row(l, r, i, j)
    requires i > 1 ==> above == Row(l, r, i - 2, |r| + 1)
    ensures here + [Cell(up[j], here[j - 1], up[j - 1], l[i - 1] == r[j - 1],
                         if Swapped(l, r, i, j) then Some(above[j - 2]) else None)]
         == Row(l, r, i, j + 1)
  {
    RowSnoc(l, r, i, j);
  }

  /** One row of the table from the two rows above it, with its minimum. */
  method NextRow<T(==)>(left: seq<T>, right: seq<T>, i: nat, beforePrevious: seq<nat>, previous: seq<nat>)
    returns (current: seq<nat>, rowMinimum: nat)
    requires 1 <= i <= |left|
    requires previous == Row(left, right, i - 1, |right| + 1)
    requires i > 1 ==> beforePrevious == Row(left, right, i - 2, |right| + 1)
    ensures current == Row(left, right, i, |right| + 1)
    ensures rowMinimum in current && forall k :: 0 <= k < |current| ==> rowMinimum <= current[k]
  {
    current := [i];
    rowMinimum := i;
    var j := 1;
    assert current == Row(left, right, i, 1);
    while j <= |right|
      invariant 1 <= j <= |right| + 1
      invariant current == Row(left, right, i, j)
      invariant rowMinimum in current && forall k :: 0 <= k < j ==> rowMinimum <= current[k]
    {
      var swapped := i > 1 && j > 1 && left[i - 1] == right[j - 2] && left[i - 2] == right[j - 1];
      var value := Cell(previous[j], current[j - 1], previous[j - 1], left[i - 1] == right[j - 1],
                        if swapped then Some(beforePrevious[j - 2]) else None);
      NextCell(left, right, i, j, beforePrevious, previous, current);
      current := current + [value];
      if value < rowMinimum {
        rowMinimum := value;
      }
      j := j + 1;
    }
  }

  /** Rolling rows, stopping as soon as a whole row exceeds the bound. */
  method BoundedEditDistanceWithWork<T(==)>(left: seq<T>, right: seq<T>, max: int)
    returns (distance: int, cells: nat)
    ensures distance == Min(Distance(left, right), max + 1)
    ensures cells <= |left| * |right|
  {
    if Max(|left| - |right|, |right| - |left|) > max {
      DistanceAtLeastLengthGap(left, right);
      return max + 1, 0;
    }
    cells := 0;
    var beforePrevious: seq<nat> := [];
    var previous: seq<nat> := seq(|right| + 1, index => index);
    var i := 1;
    while i <= |left|
      invariant 1 <= i <= |left| + 1
      invariant previous == Row(left, right, i - 1, |right| + 1)
      invariant i > 1 ==> beforePrevious == Row(left, right, i - 2, |right| + 1)
      invariant cells == (i - 1) * |right| <= |left| * |right|
    {
      var current, rowMinimum := NextRow(left, right, i, beforePrevious, previous);
      WorkGrows(i, |left|, |right|);
      cells := cells + |right|;
      if rowMinimum > max {
        HighRowExceeds(left, right, i, current, max);
        return max + 1, cells;
      }
      beforePrevious := previous;
      previous := current;
      i := i + 1;
    }
    distance := Min(previous[|right|], max + 1);
  }

  lemma HighRowExceeds<T>(l: seq<T>, r: seq<T>, i: nat, row: seq<nat>, max: int)
    requires i <= |l| && row == Row(l, r, i, |r| + 1)
    requires forall k :: 0 <= k < |row| ==> row[k] > max
    ensures Distance(l, r) > max
  {
    forall j: nat | j <= |r| ensures Osa(l, r, i, j) > max {
      assert row[j] == Osa(l, r, i, j);
    }
    RowMinimaNeverShrink(l, r, i, |l|, max);
  }

  lemma WorkGrows(i: nat, n: nat, width: nat)
    requires 1 <= i <= n
    ensures i * width == (i - 1) * width + width && i * width <= n * width
  {
  }
}
