/**
 * The sort_order bookkeeping shared by categories and price-list items:
 * the rows of a table read in `ORDER BY sort_order`, the search for a row
 * in that order, and the move up/down that swaps the sort_order of a row and
 * its neighbour.
 */
module Ordering {
  import opened Wrappers
  import opened Sequences

  datatype Direction = Up | Down

  /** A row reduced to what ordering looks at: its id and its sort_order. */
  datatype Slot = Slot(id: nat, order: int)

  predicate Sorted(s: seq<Slot>) {
    forall i, j :: 0 <= i < j < |s| ==> s[i].order <= s[j].order
  }

  /** No two rows share an id, and no two rows share a sort_order. */
  predicate Keyed(s: seq<Slot>) {
    forall i, j :: 0 <= i < j < |s| ==> s[i].id != s[j].id && s[i].order != s[j].order
  }

  /** No two rows share an id. */
  predicate DistinctIds(s: seq<Slot>) {
    forall i, j :: 0 <= i < j < |s| ==> s[i].id != s[j].id
  }

  /** Insertion of one row into a sorted list, after the rows whose sort_order is not larger. */
  function Insert(x: Slot, s: seq<Slot>): (r: seq<Slot>)
    requires Sorted(s)
    ensures Sorted(r) && |r| == |s| + 1
    ensures multiset(r) == multiset(s) + multiset{x}
    ensures forall z :: z in r ==> z == x || z in s
  {
    if s == [] || x.order < s[0].order then
      [x] + s
    else
      var rest := Insert(x, s[1..]);
      assert s == [s[0]] + s[1..];
      assert forall z :: z in rest ==> s[0].order <= z.order by {
        forall z | z in rest ensures s[0].order <= z.order {
          if z != x {
            var k :| 0 <= k < |s[1..]| && s[1..][k] == z;
            assert s[k + 1] == z;
          }
        }
      }
      ConsSorted(s[0], rest);
      [s[0]] + rest
  }

  /** A row no later than every row of a sorted list can go in front of it, and the result holds just those rows. */
  lemma ConsSorted(a: Slot, rest: seq<Slot>)
    requires Sorted(rest)
    requires forall z :: z in rest ==> a.order <= z.order
    ensures Sorted([a] + rest)
    ensures multiset([a] + rest) == multiset{a} + multiset(rest)
    ensures forall z :: z in [a] + rest ==> z == a || z in rest
  {
    var r := [a] + rest;
    forall i, j | 0 <= i < j < |r| ensures r[i].order <= r[j].order {
      assert r[j] == rest[j - 1];
      if i > 0 {
        assert r[i] == rest[i - 1];
      }
    }
  }

  /**
   * The rows of a table, listed in rowid order, as `ORDER BY sort_order`
   * returns them; rows with equal sort_order keep their rowid order.
   */
  function SortByOrder(s: seq<Slot>): (r: seq<Slot>)
    ensures Sorted(r) && |r| == |s|
    ensures multiset(r) == multiset(s)
  {
    if s == [] then
      []
    else
      assert s == s[..|s| - 1] + [s[|s| - 1]];
      Insert(s[|s| - 1], SortByOrder(s[..|s| - 1]))
  }

  /** Rows already in sort order are their own sorted view; rows with equal sort_order stay in rowid order. */
  lemma {:induction false} SortedIsItsOwnView(s: seq<Slot>)
    requires Sorted(s)
    ensures SortByOrder(s) == s
  {
    if s != [] {
      var init, x := s[..|s| - 1], s[|s| - 1];
      assert Sorted(init);
      SortedIsItsOwnView(init);
      forall z | z in init ensures z.order <= x.order {
        var k :| 0 <= k < |init| && init[k] == z;
      }
      InsertNotSmaller(x, init);
      assert s == init + [x];
    }
  }

  /** A row no earlier than every row of a sorted list is placed last. */
  lemma {:induction false} InsertNotSmaller(x: Slot, s: seq<Slot>)
    requires Sorted(s) && forall z :: z in s ==> z.order <= x.order
    ensures Insert(x, s) == s + [x]
  {
    if s != [] {
      assert s[0] in s;
      InsertNotSmaller(x, s[1..]);
      assert s == [s[0]] + s[1..];
    }
  }

  /** A row that sorts after every other is placed last. */
  lemma {:induction false} InsertLargest(x: Slot, s: seq<Slot>)
    requires Sorted(s) && forall z :: z in s ==> z.order < x.order
    ensures Insert(x, s) == s + [x]
  {
    if s != [] {
      assert s[0] in s;
      InsertLargest(x, s[1..]);
      assert s == [s[0]] + s[1..];
    }
  }

  /** Appending a row whose sort_order is larger than all others puts it last in the sorted view. */
  lemma AppendLargest(s: seq<Slot>, x: Slot)
    requires forall k :: 0 <= k < |s| ==> s[k].order < x.order
    ensures SortByOrder(s + [x]) == SortByOrder(s) + [x]
  {
    SortedBelow(s, x.order);
    InsertLargest(x, SortByOrder(s));
    SortByOrderSnoc(s, x);
  }

  /** The sorted view of a table with one more row is the old view with that row inserted. */
  lemma SortByOrderSnoc(s: seq<Slot>, x: Slot)
    ensures SortByOrder(s + [x]) == Insert(x, SortByOrder(s))
  {
    assert (s + [x])[..|s|] == s;
  }

  /** Sorting keeps every row below a bound that all rows are below. */
  lemma SortedBelow(s: seq<Slot>, bound: int)
    requires forall k :: 0 <= k < |s| ==> s[k].order < bound
    ensures forall z :: z in SortByOrder(s) ==> z.order < bound
  {
    forall z | z in SortByOrder(s) ensures z.order < bound {
      assert z in multiset(s);
    }
  }

  /** The position of the first row with the given id, or -1. */
  function IndexOf(s: seq<Slot>, id: nat): (r: int)
    ensures -1 <= r < |s|
    ensures r == -1 <==> forall k :: 0 <= k < |s| ==> s[k].id != id
    ensures r >= 0 ==> s[r].id == id && forall k :: 0 <= k < r ==> s[k].id != id
  {
    if s == [] then -1
    else if s[0].id == id then 0
    else
      var k := IndexOf(s[1..], id);
      if k == -1 then -1 else k + 1
  }

  /**
   * The search loop of `move_category` and `move_item`: walk the rows in
   * order and stop at the first one with the id; -1 when none has it.
   */
  method FindIndex(s: seq<Slot>, id: nat) returns (r: int)
    ensures -1 <= r < |s|
    ensures r == -1 <==> forall k :: 0 <= k < |s| ==> s[k].id != id
    ensures r >= 0 ==> s[r].id == id && forall k :: 0 <= k < r ==> s[k].id != id
    ensures r == IndexOf(s, id)
  {
    r := -1;
    var i := 0;
    while i < |s|
      invariant 0 <= i <= |s|
      invariant forall k :: 0 <= k < i ==> s[k].id != id
    {
      if s[i].id == id {
        r := i;
        return;
      }
      i := i + 1;
    }
  }

  /** The position a row at `i` of `n` rows swaps with, if the move is allowed. */
  function Neighbour(n: nat, i: nat, dir: Direction): (r: Option<nat>)
    requires i < n
    ensures r.Some? ==> r.value < n
    ensures r.Some? && dir == Up ==> r.value + 1 == i
    ensures r.Some? && dir == Down ==> r.value == i + 1
    ensures r.None? <==> (dir == Up && i == 0) || (dir == Down && i == n - 1)
  {
    match dir
    case Up => if i > 0 then Some(i - 1) else None
    case Down => if i < n - 1 then Some(i + 1) else None
  }

  /** The two row updates of a move: the new sort_order of the target and of its neighbour. */
  datatype Swap = Swap(target: Slot, other: Slot)

  /**
   * The updates a move asks for: none when the id is absent or the row is at
   * the boundary in the direction of the move; otherwise the target takes its
   * neighbour's sort_order and the neighbour takes the target's.
   */
  function MovePlan(slots: seq<Slot>, id: nat, dir: Direction): (r: Option<Swap>)
    ensures r.None? <==> var i := IndexOf(SortByOrder(slots), id);
                         i == -1 || Neighbour(|slots|, i, dir).None?
    ensures r.Some? ==> r.value.target.id == id
    ensures r.Some? ==> Slot(id, r.value.other.order) in slots
                        && Slot(r.value.other.id, r.value.target.order) in slots
  {
    var sorted := SortByOrder(slots);
    var r := PlanIn(sorted, id, dir);
    if r.Some? then
      var i := IndexOf(sorted, id);
      var j := Neighbour(|sorted|, i, dir).value;
      assert sorted[i] in multiset(slots) && sorted[j] in multiset(slots);
      r
    else
      r
  }

  /** The updates of a move, read off the rows already in sort_order. */
  function PlanIn(sorted: seq<Slot>, id: nat, dir: Direction): (r: Option<Swap>)
    ensures r.None? <==> var i := IndexOf(sorted, id);
                         i == -1 || Neighbour(|sorted|, i, dir).None?
    ensures r.Some? ==> var i := IndexOf(sorted, id);
                        var j := Neighbour(|sorted|, i, dir).value;
                        r.value == Swap(Slot(id, sorted[j].order), Slot(sorted[j].id, sorted[i].order))
  {
    var i := IndexOf(sorted, id);
    if i == -1 then None
    else
      match Neighbour(|sorted|, i, dir)
      case None => None
      case Some(j) => Some(Swap(Slot(id, sorted[j].order), Slot(sorted[j].id, sorted[i].order)))
  }

  /** One row after `UPDATE ... SET sort_order = ? WHERE id = ?` for both rows of a swap. */
  function Assign(z: Slot, p: Swap): Slot {
    if z.id == p.target.id then p.target
    else if z.id == p.other.id then p.other
    else z
  }

  function ApplySwap(s: seq<Slot>, p: Swap): (r: seq<Slot>)
    ensures |r| == |s|
  {
    if s == [] then [] else [Assign(s[0], p)] + ApplySwap(s[1..], p)
  }

  /** Each row is updated on its own. */
  lemma {:induction false} ApplySwapAt(s: seq<Slot>, p: Swap)
    ensures forall k :: 0 <= k < |s| ==> ApplySwap(s, p)[k] == Assign(s[k], p)
  {
    if s != [] {
      ApplySwapAt(s[1..], p);
    }
  }

  lemma {:induction false} ApplySwapConcat(a: seq<Slot>, b: seq<Slot>, p: Swap)
    ensures ApplySwap(a + b, p) == ApplySwap(a, p) + ApplySwap(b, p)
  {
    if a == [] {
      assert a + b == b;
    } else {
      assert (a + b)[1..] == a[1..] + b;
      ApplySwapConcat(a[1..], b, p);
    }
  }

  /** Applying the updates row by row commutes with reordering the rows. */
  lemma {:induction false} ApplySwapPermutation(a: seq<Slot>, b: seq<Slot>, p: Swap)
    requires multiset(a) == multiset(b)
    ensures multiset(ApplySwap(a, p)) == multiset(ApplySwap(b, p))
  {
    if a == [] {
      assert |b| == |multiset(b)| == 0;
    } else {
      var x := a[0];
      assert x in multiset(b);
      var i :| 0 <= i < |b| && b[i] == x;
      var rest := b[..i] + b[i + 1..];
      RemoveAtMultiset(b, i);
      TailMultiset(a);
      ApplySwapPermutation(a[1..], rest, p);
      ApplySwapRemoveAt(b, i, p);
      assert ApplySwap(a, p) == [Assign(x, p)] + ApplySwap(a[1..], p);
    }
  }

  /** Updating all rows is updating the row at i and the others. */
  lemma ApplySwapRemoveAt(b: seq<Slot>, i: nat, p: Swap)
    requires i < |b|
    ensures multiset(ApplySwap(b, p)) == multiset{Assign(b[i], p)} + multiset(ApplySwap(b[..i] + b[i + 1..], p))
  {
    assert b == b[..i] + ([b[i]] + b[i + 1..]);
    ApplySwapConcat(b[..i], [b[i]] + b[i + 1..], p);
    ApplySwapConcat([b[i]], b[i + 1..], p);
    ApplySwapConcat(b[..i], b[i + 1..], p);
    assert ApplySwap([b[i]], p) == [Assign(b[i], p)];
  }

  /** A sequence whose ids are pairwise distinct holds each row at most once. */
  lemma {:induction false} DistinctIdsCountOnce(s: seq<Slot>, x: Slot)
    requires forall i, j :: 0 <= i < j < |s| ==> s[i].id != s[j].id
    ensures multiset(s)[x] <= 1
  {
    if s != [] {
      assert s == [s[0]] + s[1..];
      DistinctIdsCountOnce(s[1..], x);
      if x == s[0] {
        assert x !in s[1..];
      }
    }
  }

  /** Two positions holding the same row make it occur twice. */
  lemma TwiceCountsTwo(s: seq<Slot>, i: nat, j: nat)
    requires i < j < |s| && s[i] == s[j]
    ensures multiset(s)[s[i]] >= 2
  {
    assert s == s[..j] + [s[j]] + s[j + 1..];
    assert s[i] in s[..j];
  }

  /** Distinct ids and sort orders survive a reordering. */
  lemma KeyedPermutation(s: seq<Slot>, t: seq<Slot>)
    requires Keyed(s) && multiset(s) == multiset(t)
    ensures Keyed(t)
  {
    forall i, j | 0 <= i < j < |t|
      ensures t[i].id != t[j].id && t[i].order != t[j].order
    {
      if t[i] == t[j] {
        TwiceCountsTwo(t, i, j);
        DistinctIdsCountOnce(s, t[i]);
        assert false;
      }
      assert t[i] in multiset(s) && t[j] in multiset(s);
      var p :| 0 <= p < |s| && s[p] == t[i];
      var q :| 0 <= q < |s| && s[q] == t[j];
      assert p != q;
    }
  }

  /** Distinct ids survive a reordering. */
  lemma DistinctIdsPermutation(s: seq<Slot>, t: seq<Slot>)
    requires DistinctIds(s) && multiset(s) == multiset(t)
    ensures DistinctIds(t)
  {
    forall i, j | 0 <= i < j < |t|
      ensures t[i].id != t[j].id
    {
      if t[i] == t[j] {
        TwiceCountsTwo(t, i, j);
        DistinctIdsCountOnce(s, t[i]);
        assert false;
      }
      assert t[i] in multiset(s) && t[j] in multiset(s);
      var p :| 0 <= p < |s| && s[p] == t[i];
      var q :| 0 <= q < |s| && s[q] == t[j];
      assert p != q;
    }
  }

  /** With distinct ids, a move names two different rows. */
  lemma MovePlanNamesTwoRows(slots: seq<Slot>, id: nat, dir: Direction)
    requires DistinctIds(slots) && MovePlan(slots, id, dir).Some?
    ensures MovePlan(slots, id, dir).value.target.id != MovePlan(slots, id, dir).value.other.id
  {
    var sorted := SortByOrder(slots);
    DistinctIdsPermutation(slots, sorted);
    assert MovePlan(slots, id, dir) == PlanIn(sorted, id, dir);
  }

  /** With distinct sort orders, a move that is planned changes the table. */
  lemma MovePlanChanges(slots: seq<Slot>, id: nat, dir: Direction)
    requires Keyed(slots) && MovePlan(slots, id, dir).Some?
    ensures ApplySwap(slots, MovePlan(slots, id, dir).value) != slots
  {
    var sorted := SortByOrder(slots);
    var p := MovePlan(slots, id, dir).value;
    var i := IndexOf(sorted, id);
    var j := Neighbour(|sorted|, i, dir).value;
    KeyedPermutation(slots, sorted);
    assert MovePlan(slots, id, dir) == PlanIn(sorted, id, dir);
    assert sorted[i] in multiset(slots);
    var k :| 0 <= k < |slots| && slots[k] == sorted[i];
    ApplySwapAt(slots, p);
    assert ApplySwap(slots, p)[k] == Slot(id, sorted[j].order);
    assert sorted[i].order != sorted[j].order;
  }

  /**
   * A move finds nothing to do: the id is absent, the row is at the boundary
   * of the sorted view in the direction of the move, or the neighbour it
   * would swap with has the same sort_order, so that the swap writes back
   * the values already there.
   */
  predicate Stuck(slots: seq<Slot>, id: nat, dir: Direction) {
    var sorted := SortByOrder(slots);
    var i := IndexOf(sorted, id);
    i == -1 || Neighbour(|sorted|, i, dir).None?
    || sorted[Neighbour(|sorted|, i, dir).value].order == sorted[i].order
  }

  /** With distinct ids, a planned swap leaves every row as it was exactly when the move is stuck on a tie. */
  lemma SwapUnchangedIff(slots: seq<Slot>, id: nat, dir: Direction)
    requires DistinctIds(slots) && MovePlan(slots, id, dir).Some?
    ensures ApplySwap(slots, MovePlan(slots, id, dir).value) == slots <==> Stuck(slots, id, dir)
  {
    var sorted := SortByOrder(slots);
    var p := MovePlan(slots, id, dir).value;
    var i := IndexOf(sorted, id);
    var j := Neighbour(|sorted|, i, dir).value;
    DistinctIdsPermutation(slots, sorted);
    assert MovePlan(slots, id, dir) == PlanIn(sorted, id, dir);
    if sorted[j].order == sorted[i].order {
      TieSwapIsIdentity(slots, sorted, i, j);
    } else {
      UnequalSwapChanges(slots, sorted, i, j);
    }
  }

  /** Swapping the sort orders of two rows that share one writes back what was there. */
  lemma TieSwapIsIdentity(slots: seq<Slot>, sorted: seq<Slot>, i: nat, j: nat)
    requires DistinctIds(sorted) && multiset(slots) == multiset(sorted)
    requires i < |sorted| && j < |sorted| && sorted[i].order == sorted[j].order
    ensures ApplySwap(slots, Swap(Slot(sorted[i].id, sorted[j].order), Slot(sorted[j].id, sorted[i].order))) == slots
  {
    var p := Swap(Slot(sorted[i].id, sorted[j].order), Slot(sorted[j].id, sorted[i].order));
    ApplySwapAt(slots, p);
    forall m | 0 <= m < |slots|
      ensures ApplySwap(slots, p)[m] == slots[m]
    {
      assert slots[m] in multiset(sorted);
      var n :| 0 <= n < |sorted| && sorted[n] == slots[m];
      assert slots[m].id == sorted[i].id ==> n == i;
      assert slots[m].id == sorted[j].id ==> n == j;
    }
  }

  /** Swapping two different sort orders changes the row that held the first. */
  lemma UnequalSwapChanges(slots: seq<Slot>, sorted: seq<Slot>, i: nat, j: nat)
    requires multiset(slots) == multiset(sorted)
    requires i < |sorted| && j < |sorted| && sorted[i].order != sorted[j].order
    ensures ApplySwap(slots, Swap(Slot(sorted[i].id, sorted[j].order), Slot(sorted[j].id, sorted[i].order))) != slots
  {
    var p := Swap(Slot(sorted[i].id, sorted[j].order), Slot(sorted[j].id, sorted[i].order));
    ApplySwapAt(slots, p);
    assert sorted[i] in multiset(slots);
    var k :| 0 <= k < |slots| && slots[k] == sorted[i];
    assert ApplySwap(slots, p)[k] == Slot(sorted[i].id, sorted[j].order);
  }

  /** With distinct ids and sort orders, a move keeps them distinct. */
  lemma MoveKeepsKeyed(slots: seq<Slot>, id: nat, dir: Direction)
    requires Keyed(slots) && MovePlan(slots, id, dir).Some?
    ensures Keyed(ApplySwap(slots, MovePlan(slots, id, dir).value))
  {
    var sorted := SortByOrder(slots);
    var i := IndexOf(sorted, id);
    var j := Neighbour(|sorted|, i, dir).value;
    var moved := ApplySwap(slots, MovePlan(slots, id, dir).value);
    SortedViewAfterMove(slots, id, dir);
    KeyedPermutation(slots, sorted);
    SwapOnSorted(sorted, i, j);
    KeyedPermutation(SortByOrder(moved), moved);
  }

  /** Two rows with one sort_order break `Keyed`. */
  lemma SharedOrderNotKeyed(s: seq<Slot>, x: Slot, y: Slot)
    requires x in s && y in s && x.id != y.id && x.order == y.order
    ensures !Keyed(s)
  {
    var a :| 0 <= a < |s| && s[a] == x;
    var b :| 0 <= b < |s| && s[b] == y;
    if a < b {
      assert !(s[a].order != s[b].order);
    } else {
      assert !(s[b].order != s[a].order);
    }
  }

  /** Two sequences sorted with distinct sort orders and holding the same rows are equal. */
  lemma {:induction false} StrictlySortedUnique(s: seq<Slot>, t: seq<Slot>)
    requires Sorted(s) && Sorted(t) && Keyed(s) && Keyed(t)
    requires multiset(s) == multiset(t)
    ensures s == t
  {
    if s == [] {
      assert |t| == |multiset(t)| == 0;
    } else {
      assert |t| == |multiset(t)| == |s|;
      HeadsAgree(s, t);
      TailKeepsShape(s);
      TailKeepsShape(t);
      TailMultiset(s);
      TailMultiset(t);
      StrictlySortedUnique(s[1..], t[1..]);
    }
  }

  lemma TailKeepsShape(s: seq<Slot>)
    requires s != [] && Sorted(s) && Keyed(s)
    ensures Sorted(s[1..]) && Keyed(s[1..])
  {
  }

  lemma HeadsAgree(s: seq<Slot>, t: seq<Slot>)
    requires Sorted(s) && Sorted(t) && Keyed(t)
    requires multiset(s) == multiset(t) && s != [] && t != []
    ensures s[0] == t[0]
  {
    assert s[0] in multiset(t);
    var k :| 0 <= k < |t| && t[k] == s[0];
    assert t[0] in multiset(s);
    var m :| 0 <= m < |s| && s[m] == t[0];
    assert s[0].order <= s[m].order;
    assert k == 0;
  }

  /** `s` with the ids of the rows at i and j exchanged; every position keeps its sort_order. */
  function Exchanged(s: seq<Slot>, i: nat, j: nat): (r: seq<Slot>)
    requires i < |s| && j < |s|
    ensures |r| == |s|
  {
    s[i := Slot(s[j].id, s[i].order)][j := Slot(s[i].id, s[j].order)]
  }

  /** On the sorted view, the two row updates of a move exchange two rows. */
  lemma SwapOnSorted(s: seq<Slot>, i: nat, j: nat)
    requires i < |s| && j < |s| && i != j
    requires Sorted(s) && Keyed(s)
    ensures multiset(ApplySwap(s, Swap(Slot(s[i].id, s[j].order), Slot(s[j].id, s[i].order))))
            == multiset(Exchanged(s, i, j))
    ensures Sorted(Exchanged(s, i, j)) && Keyed(Exchanged(s, i, j))
  {
    var x, y := Slot(s[i].id, s[j].order), Slot(s[j].id, s[i].order);
    SwapUpdatesTwo(s, i, j);
    WritesCommute(s, i, j, x, y);
    ExchangedKeepsShape(s, i, j);
  }

  /** Writing x at i and y at j leaves the same rows as writing y at i and x at j. */
  lemma WritesCommute(s: seq<Slot>, i: nat, j: nat, x: Slot, y: Slot)
    requires i < |s| && j < |s| && i != j
    ensures multiset(s[i := x][j := y]) == multiset(s[i := y][j := x])
  {
    if i < j {
      ExchangeMultiset(s, i, j, x, y);
    } else {
      ExchangeMultiset(s, j, i, y, x);
      assert s[j := y][i := x] == s[i := x][j := y];
      assert s[j := x][i := y] == s[i := y][j := x];
    }
  }

  /** With i before j, writing x, y or y, x at the two positions leaves the same rows. */
  lemma ExchangeMultiset(s: seq<Slot>, i: nat, j: nat, x: Slot, y: Slot)
    requires i < j < |s|
    ensures multiset(s[i := x][j := y]) == multiset(s[i := y][j := x])
  {
    TwoWrites(s, i, j, x, y);
    TwoWrites(s, i, j, y, x);
  }

  /** Writing positions i before j splits the rows around the two new values. */
  lemma TwoWrites(s: seq<Slot>, i: nat, j: nat, x: Slot, y: Slot)
    requires i < j < |s|
    ensures s[i := x][j := y] == s[..i] + [x] + s[i + 1..j] + [y] + s[j + 1..]
  {
    var u, w := s[i := x][j := y], s[..i] + [x] + s[i + 1..j] + [y] + s[j + 1..];
    assert |u| == |w|;
    forall k | 0 <= k < |u|
      ensures u[k] == w[k]
    {
      if k < i {
      } else if k == i {
      } else if k < j {
        assert w[k] == s[i + 1..j][k - i - 1];
      } else if k == j {
      } else {
        assert w[k] == s[j + 1..][k - j - 1];
      }
    }
  }

  /** Applied to rows with distinct ids, a swap writes exactly the two rows it names. */
  lemma SwapUpdatesTwo(s: seq<Slot>, i: nat, j: nat)
    requires i < |s| && j < |s| && i != j
    requires forall a, b :: 0 <= a < b < |s| ==> s[a].id != s[b].id
    ensures ApplySwap(s, Swap(Slot(s[i].id, s[j].order), Slot(s[j].id, s[i].order)))
            == s[i := Slot(s[i].id, s[j].order)][j := Slot(s[j].id, s[i].order)]
  {
    var p := Swap(Slot(s[i].id, s[j].order), Slot(s[j].id, s[i].order));
    var a := ApplySwap(s, p);
    var b := s[i := p.target][j := p.other];
    ApplySwapAt(s, p);
    forall k | 0 <= k < |s|
      ensures a[k] == b[k]
    {
      if k != i && k != j {
        assert s[k].id != s[i].id && s[k].id != s[j].id;
        assert b[k] == s[k];
      }
    }
    assert |a| == |b|;
  }

  lemma ExchangedKeepsShape(s: seq<Slot>, i: nat, j: nat)
    requires i < |s| && j < |s| && i != j
    requires Sorted(s) && Keyed(s)
    ensures Sorted(Exchanged(s, i, j)) && Keyed(Exchanged(s, i, j))
  {
    var e := Exchanged(s, i, j);
    assert forall k :: 0 <= k < |s| ==> e[k].order == s[k].order;
    assert forall k :: 0 <= k < |s| ==> e[k].id == if k == i then s[j].id else if k == j then s[i].id else s[k].id;
  }

  /**
   * With distinct ids and sort orders, the sorted view after a move is the
   * sorted view before it with the two rows exchanged.
   */
  lemma SortedViewAfterMove(slots: seq<Slot>, id: nat, dir: Direction)
    requires Keyed(slots) && MovePlan(slots, id, dir).Some?
    ensures var sorted := SortByOrder(slots);
            var i := IndexOf(sorted, id);
            i >= 0 && Neighbour(|sorted|, i, dir).Some? &&
            SortByOrder(ApplySwap(slots, MovePlan(slots, id, dir).value))
              == Exchanged(sorted, i, Neighbour(|sorted|, i, dir).value)
  {
    var sorted := SortByOrder(slots);
    var p := MovePlan(slots, id, dir).value;
    var i := IndexOf(sorted, id);
    var j := Neighbour(|sorted|, i, dir).value;
    KeyedPermutation(slots, sorted);
    SwapOnSorted(sorted, i, j);
    var swapped := Exchanged(sorted, i, j);
    ApplySwapPermutation(slots, sorted, p);
    var after := SortByOrder(ApplySwap(slots, p));
    assert multiset(after) == multiset(swapped);
    KeyedPermutation(swapped, after);
    StrictlySortedUnique(after, swapped);
  }

  function Opposite(dir: Direction): Direction {
    if dir == Up then Down else Up
  }

  /** With distinct ids and sort orders, moving a row back the other way undoes a move. */
  lemma MoveThenMoveBackRestores(slots: seq<Slot>, id: nat, dir: Direction)
    requires Keyed(slots) && MovePlan(slots, id, dir).Some?
    ensures var moved := ApplySwap(slots, MovePlan(slots, id, dir).value);
            MovePlan(moved, id, Opposite(dir)).Some?
            && ApplySwap(moved, MovePlan(moved, id, Opposite(dir)).value) == slots
  {
    var sorted := SortByOrder(slots);
    var i := IndexOf(sorted, id);
    var j := Neighbour(|sorted|, i, dir).value;
    KeyedPermutation(slots, sorted);
    MoveBackPlan(slots, id, dir);
    assert MovePlan(slots, id, dir) == PlanIn(sorted, id, dir);
    SwapThenReverse(slots, sorted, i, j);
  }

  /** Swapping two rows' sort orders and then swapping them back leaves every row as it was. */
  lemma SwapThenReverse(slots: seq<Slot>, sorted: seq<Slot>, i: nat, j: nat)
    requires Keyed(sorted) && multiset(slots) == multiset(sorted)
    requires i < |sorted| && j < |sorted| && i != j
    ensures var p := Swap(Slot(sorted[i].id, sorted[j].order), Slot(sorted[j].id, sorted[i].order));
            var q := Swap(Slot(sorted[i].id, sorted[i].order), Slot(sorted[j].id, sorted[j].order));
            ApplySwap(ApplySwap(slots, p), q) == slots
  {
    var p := Swap(Slot(sorted[i].id, sorted[j].order), Slot(sorted[j].id, sorted[i].order));
    var q := Swap(Slot(sorted[i].id, sorted[i].order), Slot(sorted[j].id, sorted[j].order));
    var moved := ApplySwap(slots, p);
    ApplySwapAt(slots, p);
    ApplySwapAt(moved, q);
    forall k | 0 <= k < |slots|
      ensures ApplySwap(moved, q)[k] == slots[k]
    {
      assert slots[k] in multiset(sorted);
      var m :| 0 <= m < |sorted| && sorted[m] == slots[k];
      SwapBackRestoresRow(sorted, i, j, m);
    }
  }

  /** The plan of the move back: it restores both sort orders. */
  lemma MoveBackPlan(slots: seq<Slot>, id: nat, dir: Direction)
    requires Keyed(slots) && MovePlan(slots, id, dir).Some?
    ensures var sorted := SortByOrder(slots);
            var i := IndexOf(sorted, id);
            i >= 0 && Neighbour(|sorted|, i, dir).Some? &&
            var j := Neighbour(|sorted|, i, dir).value;
            MovePlan(ApplySwap(slots, MovePlan(slots, id, dir).value), id, Opposite(dir))
              == Some(Swap(Slot(id, sorted[i].order), Slot(sorted[j].id, sorted[j].order)))
  {
    var sorted := SortByOrder(slots);
    var i := IndexOf(sorted, id);
    var j := Neighbour(|sorted|, i, dir).value;
    SortedViewAfterMove(slots, id, dir);
    KeyedPermutation(slots, sorted);
    PlanBackOnSorted(sorted, i, j, dir);
  }

  /** On the sorted view, the move back finds the row at j and swaps it with i. */
  lemma PlanBackOnSorted(sorted: seq<Slot>, i: nat, j: nat, dir: Direction)
    requires Keyed(sorted) && i < |sorted| && j < |sorted|
    requires Neighbour(|sorted|, i, dir) == Some(j)
    ensures PlanIn(Exchanged(sorted, i, j), sorted[i].id, Opposite(dir))
            == Some(Swap(Slot(sorted[i].id, sorted[i].order), Slot(sorted[j].id, sorted[j].order)))
  {
    var after := Exchanged(sorted, i, j);
    IndexAfterExchange(sorted, i, j);
    assert Neighbour(|after|, j, Opposite(dir)) == Some(i);
    assert after[i] == Slot(sorted[j].id, sorted[i].order);
    assert after[j] == Slot(sorted[i].id, sorted[j].order);
  }

  /** After exchanging the ids at i and j, the id that was at i is found at j. */
  lemma IndexAfterExchange(s: seq<Slot>, i: nat, j: nat)
    requires Keyed(s) && i < |s| && j < |s| && i != j
    ensures IndexOf(Exchanged(s, i, j), s[i].id) == j
  {
    var e := Exchanged(s, i, j);
    assert e[j].id == s[i].id;
    forall k | 0 <= k < j
      ensures e[k].id != s[i].id
    {
      if k != i {
        assert e[k] == s[k];
      }
    }
  }

  /**
   * The move back undoes the move on any row: on the rows it was planned from,
   * and on every row whose id is neither of the two it names.
   */
  lemma MoveBackUndoesRow(slots: seq<Slot>, id: nat, dir: Direction, z: Slot)
    requires Keyed(slots) && MovePlan(slots, id, dir).Some?
    requires z in slots || (z.id != id && z.id != MovePlan(slots, id, dir).value.other.id)
    ensures var p := MovePlan(slots, id, dir).value;
            var moved := ApplySwap(slots, p);
            MovePlan(moved, id, Opposite(dir)).Some?
            && Assign(Assign(z, p), MovePlan(moved, id, Opposite(dir)).value) == z
  {
    var sorted := SortByOrder(slots);
    var i := IndexOf(sorted, id);
    var j := Neighbour(|sorted|, i, dir).value;
    KeyedPermutation(slots, sorted);
    MoveBackPlan(slots, id, dir);
    assert MovePlan(slots, id, dir) == PlanIn(sorted, id, dir);
    assert z in slots ==> z in multiset(sorted);
    SwapBackAnyRow(sorted, i, j, z);
  }

  lemma SwapBackAnyRow(sorted: seq<Slot>, i: nat, j: nat, z: Slot)
    requires Keyed(sorted) && i < |sorted| && j < |sorted| && i != j
    requires z in sorted || (z.id != sorted[i].id && z.id != sorted[j].id)
    ensures var p := Swap(Slot(sorted[i].id, sorted[j].order), Slot(sorted[j].id, sorted[i].order));
            var q := Swap(Slot(sorted[i].id, sorted[i].order), Slot(sorted[j].id, sorted[j].order));
            Assign(Assign(z, p), q) == z
  {
    if z in sorted {
      var m :| 0 <= m < |sorted| && sorted[m] == z;
      SwapBackRestoresRow(sorted, i, j, m);
    }
  }

  /** A row of the sorted view goes back to itself after a swap and its reverse. */
  lemma SwapBackRestoresRow(sorted: seq<Slot>, i: nat, j: nat, m: nat)
    requires Keyed(sorted) && i < |sorted| && j < |sorted| && m < |sorted| && i != j
    ensures var p := Swap(Slot(sorted[i].id, sorted[j].order), Slot(sorted[j].id, sorted[i].order));
            var q := Swap(Slot(sorted[i].id, sorted[i].order), Slot(sorted[j].id, sorted[j].order));
            Assign(Assign(sorted[m], p), q) == sorted[m]
  {
    if m != i && m != j {
      assert sorted[m].id != sorted[i].id && sorted[m].id != sorted[j].id;
    }
  }

  /** No row other than the two swapped ones has a sort_order strictly between theirs. */
  lemma MovePlanAdjacent(slots: seq<Slot>, id: nat, dir: Direction, z: Slot)
    requires MovePlan(slots, id, dir).Some?
    requires z in slots
    ensures var p := MovePlan(slots, id, dir).value;
            z == Slot(id, p.other.order) || z == Slot(p.other.id, p.target.order)
            || (z.order <= p.target.order && z.order <= p.other.order)
            || (z.order >= p.target.order && z.order >= p.other.order)
  {
    var sorted := SortByOrder(slots);
    assert MovePlan(slots, id, dir) == PlanIn(sorted, id, dir);
    var i := IndexOf(sorted, id);
    var j := Neighbour(|sorted|, i, dir).value;
    assert z in multiset(sorted);
    var k :| 0 <= k < |sorted| && sorted[k] == z;
    if k != i && k != j {
      OutsideNeighbours(sorted, i, j, k);
    }
  }

  /** In a sorted list, a row outside two adjacent positions is not strictly between them. */
  lemma OutsideNeighbours(sorted: seq<Slot>, i: nat, j: nat, k: nat)
    requires Sorted(sorted) && i < |sorted| && j < |sorted| && k < |sorted|
    requires i == j + 1 || j == i + 1
    requires k != i && k != j
    ensures (sorted[k].order <= sorted[i].order && sorted[k].order <= sorted[j].order)
            || (sorted[k].order >= sorted[i].order && sorted[k].order >= sorted[j].order)
  {
    if i < j {
      assert k < i || k > j;
    } else {
      assert k < j || k > i;
    }
  }

  /** Every other row sorts after `t` (for Up) or before it (for Down). */
  predicate Extreme(slots: seq<Slot>, t: Slot, dir: Direction) {
    forall z :: z in slots && z != t ==> (if dir == Up then z.order > t.order else z.order < t.order)
  }

  /**
   * With distinct ids and sort orders, a move is a no-op exactly when the id
   * is absent, or the row already has the smallest (moving up) or largest
   * (moving down) sort_order.
   */
  lemma MovePlanNoneAtBoundary(slots: seq<Slot>, id: nat, dir: Direction)
    requires Keyed(slots)
    ensures MovePlan(slots, id, dir).None? <==>
            (forall z :: z in slots ==> z.id != id)
            || (exists t :: t in slots && t.id == id && Extreme(slots, t, dir))
  {
    var sorted := SortByOrder(slots);
    KeyedPermutation(slots, sorted);
    assert MovePlan(slots, id, dir) == PlanIn(sorted, id, dir);
    forall z ensures z in slots <==> z in sorted {
      assert z in slots <==> z in multiset(slots);
      assert z in sorted <==> z in multiset(sorted);
    }
    forall t ensures Extreme(slots, t, dir) <==> Extreme(sorted, t, dir) {
    }
    var i := IndexOf(sorted, id);
    if i >= 0 {
      if PlanIn(sorted, id, dir).None? {
        NoneAtBoundary(sorted, i, dir);
        assert sorted[i] in slots;
      } else {
        forall t | t in slots && t.id == id
          ensures !Extreme(slots, t, dir)
        {
          NotExtremeInside(sorted, i, t, dir);
        }
      }
    }
  }

  /** A row with no neighbour in the direction of the move sorts before or after all others. */
  lemma NoneAtBoundary(sorted: seq<Slot>, i: nat, dir: Direction)
    requires Sorted(sorted) && Keyed(sorted) && i < |sorted|
    requires Neighbour(|sorted|, i, dir).None?
    ensures Extreme(sorted, sorted[i], dir)
  {
    forall z | z in sorted && z != sorted[i]
      ensures if dir == Up then z.order > sorted[i].order else z.order < sorted[i].order
    {
      var m :| 0 <= m < |sorted| && sorted[m] == z;
      assert m != i;
    }
  }

  /** A row that has a neighbour in the direction of the move is not extreme. */
  lemma NotExtremeInside(sorted: seq<Slot>, i: nat, t: Slot, dir: Direction)
    requires Sorted(sorted) && Keyed(sorted) && i < |sorted|
    requires Neighbour(|sorted|, i, dir).Some?
    requires t in sorted && t.id == sorted[i].id
    ensures !Extreme(sorted, t, dir)
  {
    var m :| 0 <= m < |sorted| && sorted[m] == t;
    assert m == i;
    var j := Neighbour(|sorted|, i, dir).value;
    assert sorted[j] in sorted && sorted[j] != t;
  }
}
