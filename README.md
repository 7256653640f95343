# i3-shift slot selection, modelled in Dafny

i3-shift moves the focused i3 workspace one slot left or right in the
circular numbering space 1..10, by renaming it to the nearest slot that no
other workspace holds. This project models the two pieces of the program that
take decisions:

- `SlotSelector` (slots.dfy) — `getNextAvailableNumber`. Given the focused
  workspace's number (0 for an unnumbered workspace), a direction and the
  numbers held by the other workspaces, it builds the candidate order and
  returns the first free candidate, or `None` where the source returns
  `null`. The method `GetNextAvailableNumber` keeps the source's shape: four
  counting loops push the candidates, then a scan loop returns early. It is
  proved equal to the specification `SelectNext`, which is
  `FirstFree(CandidateOrder(current, dir), used)`. The lemmas below state the
  promised properties of `SelectNext`. The source's `%` truncates toward zero,
  so it is modelled explicitly as `TruncRem`. Because of that, the selector
  needs no precondition on the current number. The lemmas carry
  `1 <= current <= 10`, `current == 0` or `current >= 0` as hypotheses where a
  property needs one.
- `ShiftDriver` (driver.dfy) — the decision step of the top-level block. It
  finds the first focused workspace, normalises its number (`<= 0` becomes 0)
  and collects the positive numbers of the unfocused workspaces. The
  collection is the loop `CollectUsed`, specified by `UsedNumbers`. It then
  calls the selector and spells the chosen number in decimal. The method
  `Shift` is proved equal to the pure `Decision`. The result is one of
  `NoFocused`, `AllUsed` or `Rename(oldName, newNum, newName)`: the two exits
  with status 1, or the rename the program then issues.

The source takes the first workspace whose `focused` flag is set. It does not
rely on focus being unique. The used set excludes every focused workspace,
not only the first one. The model follows the code here.

## Model

| member | source | states |
|---|---|---|
| SlotSelector.TruncRem | i3-shift.ts:75-80 | The `%` of the source: the result is the remainder of truncated division. It has the sign of the dividend and magnitude below the divisor. |
| SlotSelector.Candidate | i3-shift.ts:74-82 | The candidate expression of both walking loops, with the source's truncating `%`. For current >= 1 and offset 0..9 it is a slot in 1..10. |
| SlotSelector.CandidateOrder | i3-shift.ts:59-84 | The order has ten candidates for an unnumbered workspace and nine otherwise. |
| SlotSelector.FirstFree | i3-shift.ts:86-92 | A returned value sits in the order, is not used, and every earlier candidate is used (nearest first). `None` is returned exactly when every candidate is used. |
| SlotSelector.SelectNext | i3-shift.ts:54-93 | The selector's result as a function. A returned value is a candidate of the order and is not used. `None` is returned exactly when every candidate is used. |
| SlotSelector.GetNextAvailableNumber | i3-shift.ts:54-93 | The loop-built order and early-return scan give exactly `SelectNext`: the first free candidate of the candidate order. |
| SlotSelector.CandidateFormula | i3-shift.ts:74-82 | For current >= 1 and offset 1..9, the truncating `%` agrees with the Euclidean one. Each candidate is `((current-1+k) % 10) + 1` (right) or `((current-1-k+10) % 10) + 1` (left), and lies in 1..10. |
| SlotSelector.CandidateWrapped | i3-shift.ts:74-82 | For current in 1..10 the k-th candidate is current+k or current-k, wrapped once around the circle. |
| SlotSelector.OrderIsPermutation | i3-shift.ts:72-83 | For current in 1..10 the order has nine distinct elements. They are exactly {1..10} minus current, each given by the circular formula. |
| SlotSelector.UnnumberedOrder | i3-shift.ts:60-70 | For current 0 the order is 1..10 ascending for right and 10..1 descending for left. |
| SlotSelector.AboveRangeSkipsResidue | i3-shift.ts:72-83 | For a current number above 10, the slot ((current - 1) % 10) + 1 never appears in the order, in either direction. |
| SlotSelector.SelectedSlotIsFree | i3-shift.ts:72-92 | For current >= 0, a selected slot lies in 1..10, is not in `used`, and is never current itself. |
| SlotSelector.SelectedIsNearest | i3-shift.ts:86-90 | Every candidate that precedes the selected slot in the order is used. |
| SlotSelector.EmptyUsedShiftsByOne | i3-shift.ts:73-89 | With nothing used and current in 1..10, right returns current % 10 + 1 and left returns 10 for 1, else current - 1. |
| SlotSelector.UnnumberedPicksExtreme | i3-shift.ts:60-70 | For current 0, right picks the lowest free slot and left the highest. The result is `None` exactly when all of 1..10 are used. |
| SlotSelector.NoneIffOthersUsed | i3-shift.ts:71-92 | For current in 1..10, in either direction, the result is `None` exactly when every slot other than current is used. |
| SlotSelector.SingleFreeSlotIsChosen | i3-shift.ts:59-92 | When exactly one slot v other than current is free, both directions return v. |
| ShiftDriver.FindFocused | i3-shift.ts:116-120 | Returns the index of the first focused workspace. It returns `None` exactly when no workspace is focused. |
| ShiftDriver.Normalize | i3-shift.ts:122-123 | A positive number is kept, and a zero or negative number becomes 0. |
| ShiftDriver.UsedNumbers | i3-shift.ts:125-131 | A number is used exactly when it is positive and some unfocused workspace carries it. |
| ShiftDriver.CollectUsed | i3-shift.ts:126-131 | The `add` loop over all workspaces builds exactly `UsedNumbers`. |
| ShiftDriver.DecimalString | i3-shift.ts:139 | `toString` of a number: at least one character, all decimal digits, no leading zero. |
| ShiftDriver.DecimalRoundTrip | i3-shift.ts:139 | Reading the decimal name back gives the number. |
| ShiftDriver.SlotNames | i3-shift.ts:139 | The names of slots 1..9 are one digit, and slot 10 is "10". |
| ShiftDriver.Decision | i3-shift.ts:116-139 | The decision step as a value. It is `NoFocused` exactly when no workspace is focused. A rename targets the first focused workspace's name. Its new number is a slot in 1..10 outside the used set, spelled in decimal. |
| ShiftDriver.Shift | i3-shift.ts:116-139 | The driver's find/normalise/collect/select/spell sequence yields exactly `Decision`. |
| ShiftDriver.DecisionNoFocused | i3-shift.ts:116-120 | `NoFocused` is returned exactly when no workspace is focused. |
| ShiftDriver.DecisionRenamesFocused | i3-shift.ts:116-139 | A rename targets the first focused workspace's name. Its new number lies in 1..10. No unfocused workspace holds that number, and it differs from the focused one's own positive number. The new name reads back as that number. |
| ShiftDriver.DecisionAllUsed | i3-shift.ts:123-137 | If the focused number is <= 10, `AllUsed` (no rename) is returned exactly when unfocused workspaces hold every slot other than the normalised current number. |
| ShiftDriver.DecisionUnnumbered | i3-shift.ts:122-137 | A focused number <= 0 is treated as 0. The result is `AllUsed` exactly when unfocused workspaces hold all ten slots. Otherwise the new number is a slot no unfocused workspace holds. A right shift goes to the lowest such slot and a left shift to the highest. |
| ShiftDriver.ScenarioRight | i3-shift.ts:116-139 | Focused 3 with 4 and 5 taken, shifted right, renames "3" to "6". |
| ShiftDriver.ScenarioLeft | i3-shift.ts:116-139 | The same workspaces shifted left rename "3" to "2". |
| ShiftDriver.ScenarioAllUsed | i3-shift.ts:116-137 | An unnumbered focused workspace with 1..10 all held elsewhere yields `AllUsed`, in either direction. |

## Left out

- `getWorkspaces` (i3-shift.ts:28-39) runs `i3-msg -t get_workspaces` and parses JSON. It is subprocess I/O, so the workspace list is a parameter of `Shift`.
- `renameWorkspace` (i3-shift.ts:41-52) runs `i3-msg` with a rename command. The model stops at the `Rename` outcome. The quoting of names inside the command string and a failed rename are not modelled.
- Argument parsing and `usage` (i3-shift.ts:95-105) are not modelled. They are a string-equality check on the single argument, so the direction is a parameter. The `Deno.exit`/`console.error` diagnostics are not modelled either. `NoFocused` and `AllUsed` stand for the two exits of the decision step.
- The async/await and try/catch sequencing of the top-level block is I/O ordering, not logic.
- The record fields `id`, `visible`, `rect`, `output` and `urgent` (i3-shift.ts:8-24) are never read by the decision logic.
- The source's `Set<number>` is a Dafny `set<int>`. Duplicate numbers among unfocused workspaces collapse into one element, as they do in the source.
- Determinism (the same inputs give the same result) holds by construction, because every specification is a function.
- SlotSelector.OrderIsPermutation, SlotSelector.NoneIffOthersUsed, SlotSelector.EmptyUsedShiftsByOne, SlotSelector.SelectedIsNearest and SlotSelector.SingleFreeSlotIsChosen only cover current numbers 0..10 (the first three only 1..10). The source gives a current number above 10 no intended meaning. The selector itself is still modelled for every input.
- ShiftDriver.DecisionAllUsed only covers a focused number of at most 10, for the same reason. For a focused number above 10 the model, like the source, never offers slot ((num - 1) % 10) + 1. For example, 13 shifted right skips slot 3 even when it is free (SlotSelector.AboveRangeSkipsResidue).
