// The decision step of the i3-shift driver: from the list of workspaces the
// window manager reports, find the focused one, work out which numbers the
// other workspaces hold, ask the slot selector for a new number and decide
// which rename (if any) to issue.

module ShiftDriver {
  import opened SlotSelector

  /** The fields of a workspace record that the decision step reads. */
  datatype Workspace = Workspace(num: int, name: string, focused: bool)

  /** What the driver does after the decision step. */
  datatype Outcome =
    | NoFocused                                              // no workspace has focus: exit 1
    | AllUsed                                                // the selector found no slot: exit 1
    | Rename(oldName: string, newNum: int, newName: string) // rename oldName to newName

  /** Index of the first focused workspace, as the source's `find` looks it up. */
  function FindFocused(ws: seq<Workspace>): (r: Option<nat>)
    ensures r.Some? ==>
      r.value < |ws| && ws[r.value].focused && (forall j :: 0 <= j < r.value ==> !ws[j].focused)
    ensures r.None? <==> forall j :: 0 <= j < |ws| ==> !ws[j].focused
  {
    if ws == [] then None
    else if ws[0].focused then Some(0)
    else
      match FindFocused(ws[1..])
      case None => None
      case Some(j) => Some(j + 1)
  }

  /** A missing, zero or negative workspace number counts as "unnumbered", 0. */
  function Normalize(num: int): (r: int)
    ensures num > 0 ==> r == num
    ensures num <= 0 ==> r == 0
  {
    if num > 0 then num else 0
  }

  /** Some workspace without focus carries number `n`. */
  ghost predicate HeldByUnfocused(ws: seq<Workspace>, n: int)
  {
    exists j :: 0 <= j < |ws| && !ws[j].focused && ws[j].num == n
  }

  /** The positive numbers held by workspaces without focus. */
  function UsedNumbers(ws: seq<Workspace>): (used: set<int>)
    ensures forall n :: n in used <==> n > 0 && HeldByUnfocused(ws, n)
  {
    if ws == [] then {}
    else
      var last := ws[|ws| - 1];
      var before := UsedNumbers(ws[..|ws| - 1]);
      assert forall j :: 0 <= j < |ws| - 1 ==> ws[..|ws| - 1][j] == ws[j];
      assert forall n :: HeldByUnfocused(ws, n) ==>
        HeldByUnfocused(ws[..|ws| - 1], n) || (!last.focused && last.num == n);
      if !last.focused && last.num > 0 then before + {last.num} else before
  }

  /**
   * The decimal spelling of a non-negative integer, as the source's
   * `toString` writes it (no sign, no leading zeros).
   */
  function DecimalString(n: nat): (s: string)
    ensures |s| >= 1 && (|s| > 1 ==> s[0] != '0')
    ensures forall i :: 0 <= i < |s| ==> '0' <= s[i] <= '9'
  {
    if n < 10 then [Digit(n)] else DecimalString(n / 10) + [Digit(n % 10)]
  }

  function Digit(d: nat): char
    requires d < 10
  {
    "0123456789"[d]
  }

  /** Reads back a string of decimal digits; the inverse of DecimalString. */
  function ParseDecimal(s: string): nat
  {
    if s == [] then 0
    else
      var c := s[|s| - 1];
      10 * ParseDecimal(s[..|s| - 1]) + (if '0' <= c <= '9' then (c - '0') as nat else 0)
  }

  lemma {:induction false} DecimalRoundTrip(n: nat)
    ensures ParseDecimal(DecimalString(n)) == n
  {
    var s := DecimalString(n);
    if n >= 10 {
      DecimalRoundTrip(n / 10);
      assert s[..|s| - 1] == DecimalString(n / 10);
    }
  }

  /** The slot names that the driver can produce: "1" .. "9" and "10". */
  lemma SlotNames(n: int)
    requires IsSlot(n)
    ensures n < 10 ==> DecimalString(n) == [Digit(n)]
    ensures n == 10 ==> DecimalString(n) == "10"
  {
  }

  /**
   * The decision the driver takes, as a value: no focused workspace, all
   * numbers in use, or a rename of the first focused workspace.
   */
  function Decision(ws: seq<Workspace>, dir: Direction): (out: Outcome)
    ensures out == NoFocused <==> FindFocused(ws).None?
    ensures out.Rename? ==>
      out.oldName == ws[FindFocused(ws).value].name &&
      IsSlot(out.newNum) && out.newNum !in UsedNumbers(ws) && out.newName == DecimalString(out.newNum)
  {
    match FindFocused(ws)
    case None => NoFocused
    case Some(f) =>
      var currentNum := Normalize(ws[f].num);
      match SelectNext(currentNum, dir, UsedNumbers(ws))
      case None => AllUsed
      case Some(n) =>
        SelectedSlotIsFree(currentNum, dir, UsedNumbers(ws));
        Rename(ws[f].name, n, DecimalString(n))
  }

  /** The source's loop that adds the number of each unfocused, numbered workspace. */
  method CollectUsed(ws: seq<Workspace>) returns (used: set<int>)
    ensures used == UsedNumbers(ws)
  {
    used := {};
    var i := 0;
    while i < |ws|
      invariant 0 <= i <= |ws|
      invariant used == UsedNumbers(ws[..i])
    {
      var w := ws[i];
      if !w.focused && w.num > 0 {
        used := used + {w.num};
      }
      assert ws[..i + 1][..i] == ws[..i];
      i := i + 1;
    }
    assert ws[..|ws|] == ws;
  }

  /**
   * The driver's decision step as the source runs it: find the focused
   * workspace, normalise its number, collect the used numbers, select the
   * next slot and spell its name.
   */
  method Shift(ws: seq<Workspace>, dir: Direction) returns (out: Outcome)
    ensures out == Decision(ws, dir)
  {
    var focused := FindFocused(ws);
    if focused.None? {
      return NoFocused;
    }
    var f := focused.value;
    var currentNum := if ws[f].num > 0 then ws[f].num else 0;
    var usedNumbers := CollectUsed(ws);
    var newNum := GetNextAvailableNumber(currentNum, dir, usedNumbers);
    if newNum.None? {
      return AllUsed;
    }
    SelectedSlotIsFree(currentNum, dir, usedNumbers);
    var newName := DecimalString(newNum.value);
    return Rename(ws[f].name, newNum.value, newName);
  }

  // ---------------------------------------------------------------------
  // Properties of the decision

  /** The decision reports the missing focus exactly when no workspace has focus. */
  lemma DecisionNoFocused(ws: seq<Workspace>, dir: Direction)
    ensures Decision(ws, dir) == NoFocused <==> forall j :: 0 <= j < |ws| ==> !ws[j].focused
  {
  }

  /**
   * A rename always targets the first focused workspace and moves it to a
   * slot in 1..10 that no unfocused workspace holds and that differs from
   * its own positive number, under the decimal name of that slot.
   */
  lemma {:induction false} DecisionRenamesFocused(ws: seq<Workspace>, dir: Direction)
    ensures var out := Decision(ws, dir);
      out.Rename? ==>
        FindFocused(ws).Some? &&
        var f := FindFocused(ws).value;
        out.oldName == ws[f].name && IsSlot(out.newNum) &&
        (ws[f].num > 0 ==> out.newNum != ws[f].num) &&
        ParseDecimal(out.newName) == out.newNum &&
        (forall j :: 0 <= j < |ws| && !ws[j].focused ==> ws[j].num != out.newNum)
  {
    var out := Decision(ws, dir);
    if out.Rename? {
      var f := FindFocused(ws).value;
      var used := UsedNumbers(ws);
      SelectedSlotIsFree(Normalize(ws[f].num), dir, used);
      DecimalRoundTrip(out.newNum);
      forall j | 0 <= j < |ws| && !ws[j].focused ensures ws[j].num != out.newNum {
        if ws[j].num > 0 {
          assert ws[j].num in used;
        }
      }
    }
  }

  /**
   * With a focused workspace numbered 0..10 (after normalisation), the
   * decision is AllUsed exactly when every other slot is held by an
   * unfocused workspace.
   */
  lemma {:induction false} DecisionAllUsed(ws: seq<Workspace>, dir: Direction)
    requires FindFocused(ws).Some?
    requires ws[FindFocused(ws).value].num <= MaxWorkspace
    ensures var current := Normalize(ws[FindFocused(ws).value].num);
      Decision(ws, dir) == AllUsed <==>
        forall u :: IsSlot(u) && u != current ==> HeldByUnfocused(ws, u)
  {
    var current := Normalize(ws[FindFocused(ws).value].num);
    var used := UsedNumbers(ws);
    if current == 0 {
      UnnumberedPicksExtreme(dir, used);
    } else {
      NoneIffOthersUsed(current, dir, used);
    }
  }

  /**
   * A focused workspace with no positive number is treated as unnumbered:
   * Right moves it to the lowest slot no unfocused workspace holds, Left to
   * the highest, and nothing is renamed exactly when all ten slots are held.
   */
  lemma {:induction false} DecisionUnnumbered(ws: seq<Workspace>, dir: Direction)
    requires FindFocused(ws).Some? && ws[FindFocused(ws).value].num <= 0
    ensures var out := Decision(ws, dir);
      (out == AllUsed <==> forall u :: IsSlot(u) ==> HeldByUnfocused(ws, u)) &&
      (out.Rename? ==> IsSlot(out.newNum) && !HeldByUnfocused(ws, out.newNum)) &&
      (out.Rename? && dir == Right ==> forall u :: 1 <= u < out.newNum ==> HeldByUnfocused(ws, u)) &&
      (out.Rename? && dir == Left ==> forall u :: out.newNum < u <= MaxWorkspace ==> HeldByUnfocused(ws, u))
  {
    UnnumberedPicksExtreme(dir, UsedNumbers(ws));
    if Decision(ws, dir).Rename? {
      DecisionRenamesFocused(ws, dir);
    }
  }

  /** Workspaces 3 (focused), 4 and 5 shifted right: 3 is renamed to 6. */
  lemma ScenarioRight()
    ensures Decision([Workspace(3, "3", true), Workspace(4, "4", false), Workspace(5, "5", false)], Right)
      == Rename("3", 6, "6")
  {
    var ws := [Workspace(3, "3", true), Workspace(4, "4", false), Workspace(5, "5", false)];
    assert HeldByUnfocused(ws, 4) && HeldByUnfocused(ws, 5) by {
      assert ws[1].num == 4 && ws[2].num == 5;
    }
    forall n | n in UsedNumbers(ws) ensures n == 4 || n == 5 {
      var j :| 0 <= j < |ws| && !ws[j].focused && ws[j].num == n;
    }
    assert UsedNumbers(ws) == {4, 5};
    CandidateWrapped(3, 1);
    CandidateWrapped(3, 2);
    CandidateWrapped(3, 3);
    assert CandidateOrder(3, Right)[..3] == [4, 5, 6];
  }

  /** The same workspaces shifted left: 3 is renamed to 2. */
  lemma ScenarioLeft()
    ensures Decision([Workspace(3, "3", true), Workspace(4, "4", false), Workspace(5, "5", false)], Left)
      == Rename("3", 2, "2")
  {
    var ws := [Workspace(3, "3", true), Workspace(4, "4", false), Workspace(5, "5", false)];
    assert HeldByUnfocused(ws, 4) && HeldByUnfocused(ws, 5) by {
      assert ws[1].num == 4 && ws[2].num == 5;
    }
    forall n | n in UsedNumbers(ws) ensures n == 4 || n == 5 {
      var j :| 0 <= j < |ws| && !ws[j].focused && ws[j].num == n;
    }
    assert UsedNumbers(ws) == {4, 5};
    CandidateWrapped(3, 1);
  }

  /** An unnumbered focused workspace with all ten slots held elsewhere: nothing is renamed. */
  lemma ScenarioAllUsed(dir: Direction)
    ensures Decision([Workspace(0, "web", true)] + seq(MaxWorkspace, j => Workspace(j + 1, "w", false)), dir)
      == AllUsed
  {
    var ws := [Workspace(0, "web", true)] + seq(MaxWorkspace, j => Workspace(j + 1, "w", false));
    forall u | IsSlot(u) ensures u in UsedNumbers(ws) {
      assert ws[u].num == u && !ws[u].focused;
    }
    UnnumberedPicksExtreme(dir, UsedNumbers(ws));
  }
}
