// The slot selector of i3-shift: given the focused workspace's number
// (0 for "unnumbered"), a direction and the numbers held by the other
// workspaces, pick the nearest free slot in the circular space 1..10.

module SlotSelector {

  /** Number of workspace slots; slot numbers run from 1 to MaxWorkspace. */
  const MaxWorkspace: int := 10

  datatype Direction = Left | Right

  datatype Option<T> = None | Some(value: T)

  /** A slot of the circular slot space. */
  predicate IsSlot(n: int)
  {
    1 <= n <= MaxWorkspace
  }

  /**
   * The quotient of the source language's division of integers, truncated
   * toward zero (Dafny's own `/` is Euclidean).
   */
  function TruncQuot(a: int, m: int): int
    requires m > 0
  {
    if a >= 0 then a / m else -((-a) / m)
  }

  /**
   * The remainder of the source language's `%` operator: it pairs with the
   * truncated quotient, so it takes the sign of the dividend (Dafny's own
   * `%` is Euclidean and never negative).
   */
  function TruncRem(a: int, m: int): (r: int)
    requires m > 0
    ensures a == m * TruncQuot(a, m) + r
    ensures a >= 0 ==> 0 <= r < m
    ensures a < 0 ==> -m < r <= 0
  {
    if a >= 0 then a % m else -((-a) % m)
  }

  /**
   * The k-th candidate when walking away from numbered workspace `current`
   * in direction `dir`, exactly as the source computes it.
   */
  function Candidate(current: int, dir: Direction, k: int): (c: int)
    ensures current >= 1 && 0 <= k < MaxWorkspace ==> IsSlot(c)
  {
    match dir
    case Right => TruncRem(current - 1 + k, MaxWorkspace) + 1
    case Left => TruncRem(current - 1 - k + MaxWorkspace, MaxWorkspace) + 1
  }

  /**
   * The order in which slots are offered: all ten slots (ascending for Right,
   * descending for Left) when the workspace is unnumbered, otherwise the nine
   * candidates at offsets 1..9 around the circle.
   */
  function CandidateOrder(current: int, dir: Direction): (order: seq<int>)
    ensures |order| == if current == 0 then MaxWorkspace else MaxWorkspace - 1
  {
    if current == 0 then
      if dir == Right then seq(MaxWorkspace, j => j + 1)
      else seq(MaxWorkspace, j => MaxWorkspace - j)
    else
      seq(MaxWorkspace - 1, j => Candidate(current, dir, j + 1))
  }

  /** `v` sits at position `j` of `order`, is free, and everything before it is used. */
  ghost predicate FirstFreeAt(order: seq<int>, used: set<int>, j: int, v: int)
  {
    0 <= j < |order| && order[j] == v && v !in used &&
    forall i :: 0 <= i < j ==> order[i] in used
  }

  /** The first element of `order` that is not in `used`, if any. */
  function FirstFree(order: seq<int>, used: set<int>): (r: Option<int>)
    ensures r.Some? ==> exists j :: FirstFreeAt(order, used, j, r.value)
    ensures r.None? <==> forall x :: x in order ==> x in used
  {
    if order == [] then None
    else if order[0] !in used then
      assert FirstFreeAt(order, used, 0, order[0]);
      Some(order[0])
    else
      var r := FirstFree(order[1..], used);
      if r.Some? then
        assert exists j :: FirstFreeAt(order, used, j, r.value) by {
          var j :| FirstFreeAt(order[1..], used, j, r.value);
          assert FirstFreeAt(order, used, j + 1, r.value);
        }
        r
      else
        assert forall x :: x in order ==> x == order[0] || x in order[1..];
        r
  }

  /** What the selector returns: the first free slot of the candidate order. */
  function SelectNext(current: int, dir: Direction, used: set<int>): (r: Option<int>)
    ensures r.Some? ==> r.value in CandidateOrder(current, dir) && r.value !in used
    ensures r.None? <==> forall x :: x in CandidateOrder(current, dir) ==> x in used
  {
    FirstFree(CandidateOrder(current, dir), used)
  }

  /**
   * The selector as the source writes it: push the candidates into `order`
   * with one of four counting loops, then scan `order` and return the first
   * candidate not in `used`.
   */
  method GetNextAvailableNumber(currentNum: int, dir: Direction, used: set<int>)
    returns (r: Option<int>)
    ensures r == SelectNext(currentNum, dir, used)
  {
    var order: seq<int> := [];
    if currentNum == 0 {
      if dir == Right {
        var i := 1;
        while i <= MaxWorkspace
          invariant 1 <= i <= MaxWorkspace + 1
          invariant order == seq(i - 1, j => j + 1)
        {
          order := order + [i];
          i := i + 1;
        }
      } else {
        var i := MaxWorkspace;
        while i >= 1
          invariant 0 <= i <= MaxWorkspace
          invariant order == seq(MaxWorkspace - i, j => MaxWorkspace - j)
        {
          order := order + [i];
          i := i - 1;
        }
      }
    } else {
      if dir == Right {
        var i := 1;
        while i <= MaxWorkspace - 1
          invariant 1 <= i <= MaxWorkspace
          invariant order == seq(i - 1, j => Candidate(currentNum, Right, j + 1))
        {
          var candidate := TruncRem(currentNum - 1 + i, MaxWorkspace) + 1;
          order := order + [candidate];
          i := i + 1;
        }
      } else {
        var i := 1;
        while i <= MaxWorkspace - 1
          invariant 1 <= i <= MaxWorkspace
          invariant order == seq(i - 1, j => Candidate(currentNum, Left, j + 1))
        {
          var candidate := TruncRem(currentNum - 1 - i + MaxWorkspace, MaxWorkspace) + 1;
          order := order + [candidate];
          i := i + 1;
        }
      }
    }
    assert order == CandidateOrder(currentNum, dir);

    var k := 0;
    while k < |order|
      invariant 0 <= k <= |order|
      invariant FirstFree(order[k..], used) == FirstFree(order, used)
    {
      var candidate := order[k];
      if candidate !in used {
        return Some(candidate);
      }
      assert order[k..][1..] == order[k + 1..];
      k := k + 1;
    }
    return None;
  }

  // ---------------------------------------------------------------------
  // Properties of the candidate order

  /**
   * For a positive current number the source's truncating `%` agrees with
   * the Euclidean one, and the candidate is the familiar circular formula.
   */
  lemma CandidateFormula(current: int, k: int)
    requires current >= 1 && 1 <= k <= MaxWorkspace - 1
    ensures Candidate(current, Right, k) == (current - 1 + k) % MaxWorkspace + 1
    ensures Candidate(current, Left, k) == (current - 1 - k + MaxWorkspace) % MaxWorkspace + 1
    ensures IsSlot(Candidate(current, Right, k)) && IsSlot(Candidate(current, Left, k))
  {
    var a, b := current - 1 + k, current - 1 - k + MaxWorkspace;
    EuclideanRem(a, TruncQuot(a, MaxWorkspace), TruncRem(a, MaxWorkspace));
    EuclideanRem(b, TruncQuot(b, MaxWorkspace), TruncRem(b, MaxWorkspace));
  }

  /** A remainder in 0..9 of a division of `a` by 10 is `a % 10`. */
  lemma EuclideanRem(a: int, q: int, r: int)
    requires 0 <= r < MaxWorkspace && a == MaxWorkspace * q + r
    ensures r == a % MaxWorkspace
  {
  }

  /** Within 1..10 the candidates are current +/- k, wrapped once around the circle. */
  lemma CandidateWrapped(current: int, k: int)
    requires IsSlot(current) && 1 <= k <= MaxWorkspace - 1
    ensures Candidate(current, Right, k) ==
      if current + k <= MaxWorkspace then current + k else current + k - MaxWorkspace
    ensures Candidate(current, Left, k) ==
      if current - k >= 1 then current - k else current - k + MaxWorkspace
  {
    CandidateFormula(current, k);
  }

  /** The k-th step from `current` around the circle 1..10, without any `%`. */
  function Wrapped(current: int, dir: Direction, k: int): int
  {
    if dir == Right then
      (if current + k <= MaxWorkspace then current + k else current + k - MaxWorkspace)
    else
      (if current - k >= 1 then current - k else current - k + MaxWorkspace)
  }

  /** Every element of a numbered order is the wrapped step at its offset. */
  lemma OrderWrapped(current: int, dir: Direction)
    requires IsSlot(current)
    ensures var order := CandidateOrder(current, dir);
      forall j :: 0 <= j < |order| ==> order[j] == Wrapped(current, dir, j + 1)
  {
    var order := CandidateOrder(current, dir);
    forall j | 0 <= j < |order| ensures order[j] == Wrapped(current, dir, j + 1) {
      CandidateWrapped(current, j + 1);
    }
  }

  /** Every element of a numbered order is the circular `%` formula at its offset. */
  lemma OrderFormula(current: int, dir: Direction)
    requires IsSlot(current)
    ensures var order := CandidateOrder(current, dir);
      forall j :: 0 <= j < |order| ==>
        order[j] == if dir == Right then (current + j) % MaxWorkspace + 1
                    else (current - 2 - j + MaxWorkspace) % MaxWorkspace + 1
  {
    var order := CandidateOrder(current, dir);
    forall j | 0 <= j < |order|
      ensures order[j] == if dir == Right then (current + j) % MaxWorkspace + 1
                          else (current - 2 - j + MaxWorkspace) % MaxWorkspace + 1
    {
      CandidateFormula(current, j + 1);
    }
  }

  /**
   * For a numbered workspace in 1..10 the candidate order is a duplicate-free
   * listing of the nine other slots, its k-th element the circular formula.
   */
  lemma {:induction false} OrderIsPermutation(current: int, dir: Direction)
    requires IsSlot(current)
    ensures var order := CandidateOrder(current, dir);
      |order| == MaxWorkspace - 1 &&
      (forall i, j :: 0 <= i < j < |order| ==> order[i] != order[j]) &&
      (forall v :: v in order <==> IsSlot(v) && v != current) &&
      (forall j :: 0 <= j < |order| ==>
        order[j] == if dir == Right then (current + j) % MaxWorkspace + 1
                    else (current - 2 - j + MaxWorkspace) % MaxWorkspace + 1)
  {
    var order := CandidateOrder(current, dir);
    OrderFormula(current, dir);
    OrderWrapped(current, dir);
    forall v ensures v in order <==> IsSlot(v) && v != current {
      if IsSlot(v) && v != current {
        var k := if dir == Right then
            (if v > current then v - current else v - current + MaxWorkspace)
          else
            (if v < current then current - v else current - v + MaxWorkspace);
        assert order[k - 1] == v;
      }
    }
  }

  /** For an unnumbered workspace the order is 1..10 ascending (Right) or descending (Left). */
  lemma UnnumberedOrder(dir: Direction)
    ensures var order := CandidateOrder(0, dir);
      |order| == MaxWorkspace &&
      forall j :: 0 <= j < MaxWorkspace ==>
        order[j] == if dir == Right then j + 1 else MaxWorkspace - j
  {
  }

  /**
   * A current number above 10 is walked like its residue: the slot
   * ((current - 1) % 10) + 1 is never offered, even when it is free.
   */
  lemma AboveRangeSkipsResidue(current: int, dir: Direction)
    requires current > MaxWorkspace
    ensures (current - 1) % MaxWorkspace + 1 !in CandidateOrder(current, dir)
  {
    var order := CandidateOrder(current, dir);
    forall j | 0 <= j < |order| ensures order[j] != (current - 1) % MaxWorkspace + 1 {
      CandidateFormula(current, j + 1);
    }
  }

  // ---------------------------------------------------------------------
  // Properties of the selected slot

  /**
   * Any slot the selector returns is a real slot that no other workspace
   * holds, and it is never the current number itself.
   */
  lemma {:induction false} SelectedSlotIsFree(current: int, dir: Direction, used: set<int>)
    requires current >= 0
    ensures var r := SelectNext(current, dir, used);
      r.Some? ==> IsSlot(r.value) && r.value !in used && r.value != current
  {
    var order := CandidateOrder(current, dir);
    var r := SelectNext(current, dir, used);
    if r.Some? {
      var j :| FirstFreeAt(order, used, j, r.value);
      if current != 0 {
        CandidateFormula(current, j + 1);
        if IsSlot(current) {
          CandidateWrapped(current, j + 1);
        }
      }
    }
  }

  /**
   * Nearest first: every candidate offered before the selected slot is
   * held by another workspace.
   */
  lemma {:induction false} SelectedIsNearest(current: int, dir: Direction, used: set<int>, j: int)
    requires IsSlot(current) || current == 0
    ensures var order := CandidateOrder(current, dir);
      0 <= j < |order| && SelectNext(current, dir, used) == Some(order[j]) ==>
        forall i :: 0 <= i < j ==> order[i] in used
  {
    var order := CandidateOrder(current, dir);
    if 0 <= j < |order| && SelectNext(current, dir, used) == Some(order[j]) {
      var j' :| FirstFreeAt(order, used, j', order[j]);
      if current == 0 {
        UnnumberedOrder(dir);
      } else {
        OrderIsPermutation(current, dir);
      }
      assert j' == j;
    }
  }

  /** With no other numbered workspace, Right moves one up and Left one down, wrapping at 10 and 1. */
  lemma {:induction false} EmptyUsedShiftsByOne(current: int)
    requires IsSlot(current)
    ensures SelectNext(current, Right, {}) == Some(current % MaxWorkspace + 1)
    ensures SelectNext(current, Left, {}) == Some(if current == 1 then MaxWorkspace else current - 1)
  {
    CandidateWrapped(current, 1);
  }

  /**
   * For an unnumbered workspace Right picks the lowest free slot, Left the
   * highest, and there is none exactly when all ten slots are used.
   */
  lemma {:induction false} UnnumberedPicksExtreme(dir: Direction, used: set<int>)
    ensures var r := SelectNext(0, dir, used);
      (r.None? <==> forall u :: IsSlot(u) ==> u in used) &&
      (r.Some? ==> IsSlot(r.value) && r.value !in used) &&
      (r.Some? && dir == Right ==> forall u :: 1 <= u < r.value ==> u in used) &&
      (r.Some? && dir == Left ==> forall u :: r.value < u <= MaxWorkspace ==> u in used)
  {
    var order := CandidateOrder(0, dir);
    var r := SelectNext(0, dir, used);
    UnnumberedOrder(dir);
    assert forall u :: IsSlot(u) ==> u in order by {
      forall u | IsSlot(u) ensures u in order {
        var j := if dir == Right then u - 1 else MaxWorkspace - u;
        assert order[j] == u;
      }
    }
    if r.Some? {
      var j :| FirstFreeAt(order, used, j, r.value);
      if dir == Right {
        forall u | 1 <= u < r.value ensures u in used {
          assert order[u - 1] == u;
        }
      } else {
        forall u | r.value < u <= MaxWorkspace ensures u in used {
          assert order[MaxWorkspace - u] == u;
        }
      }
    }
  }

  /**
   * For a numbered workspace in 1..10 there is no free slot exactly when
   * every other slot is used, in either direction.
   */
  lemma {:induction false} NoneIffOthersUsed(current: int, dir: Direction, used: set<int>)
    requires IsSlot(current)
    ensures SelectNext(current, dir, used).None? <==>
      forall u :: IsSlot(u) && u != current ==> u in used
  {
    OrderIsPermutation(current, dir);
  }

  /** When only one slot other than the current one is free, both directions pick it. */
  lemma {:induction false} SingleFreeSlotIsChosen(current: int, dir: Direction, used: set<int>, v: int)
    requires IsSlot(current) || current == 0
    requires IsSlot(v) && v != current && v !in used
    requires forall u :: IsSlot(u) && u != current && u != v ==> u in used
    ensures SelectNext(current, dir, used) == Some(v)
  {
    var order := CandidateOrder(current, dir);
    var r := SelectNext(current, dir, used);
    if current == 0 {
      UnnumberedOrder(dir);
      var j := if dir == Right then v - 1 else MaxWorkspace - v;
      assert order[j] == v;
    } else {
      OrderIsPermutation(current, dir);
    }
    SelectedSlotIsFree(current, dir, used);
    assert r.Some?;
  }
}
