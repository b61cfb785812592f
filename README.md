# Pad tool of the KiCad PCB editor, modelled in Dafny

This project models the core of KiCad's `PAD_TOOL` (`pcbnew/tools/pad_tool.cpp`)
and proves properties of that model.

- **Interactive pad renumbering (`EnumeratePads`).** The user drags or clicks over pads.
  Each pad that is not yet numbered gets the name `prefix + number`. The number is the
  oldest released one if there is one, otherwise the next value of a counter. A left
  click on a pad numbered in this session gives its number back and restores the pad's
  former name. A drag never gives a number back. Between two cursor positions the tool
  tests points spaced by the move divided into `distance / 0.1 mm + 1` segments; the
  stretch next to the old position is not covered at that spacing. Cancel reverts the commit.
  Activate, Enter or a left double-click push it as "Renumber pads".
- **Push pad settings (`doPushPadProperties`, `pushPadSettings`).** The settings of one
  source pad are copied onto every pad that passes the scope filter (the same footprint,
  or every footprint with the same FPID) and the enabled shape, orientation, layer-set
  and attribute filters. An aperture special case applies to connector pads.
- **Copy pad settings and `Reset`.** These maintain the tool's `m_padCopied` flag and the
  board's master pad.

Modules, one file each:

- `BoardModel` (`board_model.dfy`): pads, footprints, commit intents, board well-formedness.
- `PadNames` (`pad_names.dfy`): `"%s%d"` naming, proved injective.
- `Sampling` (`sampling.dfy`): test points, hit collection, `std::list::unique`.
- `PadNumbering` (`pad_numbering.dfy`): the numbering state machine as pure functions on
  a `Numbering` value. It also holds the session invariant: number conservation and
  paired names.
- `EnumSession` (`enum_session.dfy`): events, the pure loop step `Step` and its iteration
  `RunSpec`. The class `RenumberSession` holds the loop's locals as fields and updates the
  pad array in place. Each of its methods is proved equal to the pure functions.
- `PushPads` (`push_pads.dfy`): the push filter and the nested loop.
- `PadTool` (`pad_tool.dfy`): the tool object and `EnumeratePads` end to end.

Foreign inputs are parameters:

- the hit test of `GENERAL_COLLECTOR::Collect` is `hit: Point -> seq<nat>`;
- `EuclideanNorm` is `norm: Point -> nat`;
- `ImportSettingsFrom` is `importSettings: (Pad, Pad) -> Pad`;
- what the dialogs return is plain arguments;
- the events `Wait()` delivers are a sequence.

The commit is an append-only log of `Modify(pad)`, `Push(message)` and `Revert` intents.

Behaviour of the code that is easy to misread:

- Released numbers go to the back of the queue (`push_back`, line 373). New numbers are
  taken from the front (lines 344-345). So the oldest released number is reused first,
  not the most recently released one (`OldestReleasedReusedFirst`).
- A move is tested at `distance / step + 1` points (line 316), with truncating division.
  It is not cut into `ceil(distance / step)` segments.
- `selectedPads.unique()` (line 330) removes adjacent repeats only. During a click, a pad
  that is met again after another pad is visited twice (`UniqueKeepsSeparatedRepeats`,
  `ClickRevisitUndoesNumbering`). During a drag the second visit does nothing
  (`DragIgnoresRepeats`).
- At the end only the pads of the first footprint are unselected (lines 410-414), not
  every pad that carries the mark. See "## Findings".

## Model

| member | source | states |
|---|---|---|
| PadNames.NatToDecimal | pcbnew/tools/pad_tool.cpp:350 | the decimal digits of a number: at least one digit, two or more from 10 on |
| PadNames.PadName | pcbnew/tools/pad_tool.cpp:350 | a new name is the prefix followed by something non-empty |
| PadNames.IntToDecimal | pcbnew/tools/pad_tool.cpp:350 | `%d` of any integer: non-empty, a leading minus exactly for negative numbers, followed by at least one digit and digits only |
| PadNames.NatToDecimalInjective | pcbnew/tools/pad_tool.cpp:350 | different numbers print to different digit strings |
| PadNames.IntToDecimalInjective | pcbnew/tools/pad_tool.cpp:350 | `%d` is injective on all integers, negative ones included |
| PadNames.PadNameInjective | pcbnew/tools/pad_tool.cpp:350-351 | `prefix + %d` is injective, so the names are a sound key for oldNames |
| PadNames.PadNameExamples | pcbnew/tools/pad_tool.cpp:350 | "P" and 12 give "P12"; an empty prefix and 7 give "7"; "A" and -3 give "A-3" |
| Sampling.SamplePoints | pcbnew/tools/pad_tool.cpp:314-323 | exactly `distance / step + 1` points. The first is the cursor itself. Every point lies in the box spanned by the old and the new cursor position. When the distance bounds both components of the move, neighbouring points are less than one step apart on each axis. |
| Sampling.CollectPads | pcbnew/tools/pad_tool.cpp:301-330 | the loop returns the hits at every test point, in test order, with adjacent repeats removed |
| Sampling.AdjacentUnique | pcbnew/tools/pad_tool.cpp:330 | keeps the first entry and the same set of pads; no two neighbours are equal (`AdjacentUniqueSnoc` pins down the whole result) |
| Sampling.SegmentCountBounds | pcbnew/tools/pad_tool.cpp:316 | at least one test point, and `(segments-1)*step <= distance < segments*step` |
| Sampling.TruncDiv | pcbnew/tools/pad_tool.cpp:317 | C++ integer division: rounds toward zero, so the quotient never overshoots and keeps the sign of the dividend |
| Sampling.LineStep | pcbnew/tools/pad_tool.cpp:317 | each component of `line_step` times the segment count stays between 0 and the move's component, and falls short by less than one segment count |
| Sampling.OneMillimetreGetsTenSamples | pcbnew/tools/pad_tool.cpp:315-316 | a 1 mm move is tested at 11 points (every 0.1 mm) |
| Sampling.ScaledStepWithin | pcbnew/tools/pad_tool.cpp:317-323 | `j` steps of `d / n`, for `j <= n`, stay between 0 and `d` |
| Sampling.TestPointsStayInMoveBox | pcbnew/tools/pad_tool.cpp:317-323 | every test point lies in the bounding box of the old and the new cursor position |
| Sampling.TestPointsSpacing | pcbnew/tools/pad_tool.cpp:314-323 | when the distance bounds the move's components, neighbouring test points are less than one step apart on each axis |
| Sampling.FinalStretch | pcbnew/tools/pad_tool.cpp:314-323 | the last test point lies `line_step` plus the truncation remainder from the old position, and that remainder is below the segment count on each axis |
| Sampling.LongMoveSegments | pcbnew/tools/pad_tool.cpp:316-317 | a 999-unit move with a step of 10 gets 100 segments of 9 |
| Sampling.FinalStretchExample | pcbnew/tools/pad_tool.cpp:314-323 | that move's last test point is 108 units from the old position, more than ten steps |
| Sampling.SampleSpacingBelowStep | pcbnew/tools/pad_tool.cpp:314-317 | when the distance bounds both components of the move, each component of `line_step`, the spacing of consecutive test points, is below the step |
| Sampling.NoMoveSamplesCursorOnly | pcbnew/tools/pad_tool.cpp:305-323 | with no move, the single test point is the cursor |
| Sampling.HitsAlong | pcbnew/tools/pad_tool.cpp:321-328 | every pad the hit test reports at any test point is in the collected list |
| Sampling.HitsAlongMembership | pcbnew/tools/pad_tool.cpp:321-327 | a pad is collected if and only if the hit test reports it at some test point |
| Sampling.HitsAlongInRange | pcbnew/tools/pad_tool.cpp:324-327 | the collected list names pads of the board |
| Sampling.AdjacentUniqueIdempotent | pcbnew/tools/pad_tool.cpp:330 | applying `unique` twice changes nothing more |
| Sampling.AdjacentUniqueSnoc | pcbnew/tools/pad_tool.cpp:330 | appending a pad adds it to the result exactly when it differs from the last entry: `unique` keeps each run's first element |
| Sampling.NoAdjacentRepeatsIsFixed | pcbnew/tools/pad_tool.cpp:330 | a list without adjacent repeats is left as it is |
| Sampling.UniqueKeepsSeparatedRepeats | pcbnew/tools/pad_tool.cpp:330 | `[a, b, a]` is kept whole: repeats that are not adjacent survive |
| PadNumbering.StartIsConsistent | pcbnew/tools/pad_tool.cpp:258-270 | the start state (counter at the start number, empty queue and map, nothing selected) satisfies the invariant |
| PadNumbering.NextNumber | pcbnew/tools/pad_tool.cpp:342-360 | the front of the released-number queue when there is one, otherwise the counter |
| PadNumbering.Assign | pcbnew/tools/pad_tool.cpp:337-353 | keeps the pad count and the prefix; its full effect is stated by `AssignTakesAnnouncedNumber` and `AssignKeepsInvariant` |
| PadNumbering.Release | pcbnew/tools/pad_tool.cpp:366-383 | keeps the pad count and the prefix; its full effect is stated by `ReleaseRestoresOriginalName` and `ReleaseKeepsInvariant` |
| PadNumbering.Visit | pcbnew/tools/pad_tool.cpp:334-384 | keeps the pad count and the prefix; stated by `VisitKeepsInvariant`, `DragVisitOnlyAdds` and `VisitAppendsModify` |
| PadNumbering.VisitAll | pcbnew/tools/pad_tool.cpp:332 | keeps the pad count and the prefix; stated by `VisitAllKeepsInvariant`, `VisitAllConcat` and `DragOnlyAdds` |
| PadNumbering.CloseKeepsInvariant | pcbnew/tools/pad_tool.cpp:282-394 | recording Revert or Push keeps the invariant |
| PadNumbering.NextNumberIsFree | pcbnew/tools/pad_tool.cpp:342-348 | the next number is in range, and below the counter when reused; no live name is made from it |
| PadNumbering.AssignKeepsInvariant | pcbnew/tools/pad_tool.cpp:335-353 | numbering a pad keeps number conservation and paired names |
| PadNumbering.AssignConservesNumbers | pcbnew/tools/pad_tool.cpp:342-351 | numbering a pad keeps every handed-out number in exactly one place |
| PadNumbering.AssignPairsNames | pcbnew/tools/pad_tool.cpp:337-353 | numbering a pad with a free name keeps names and oldNames entries paired |
| PadNumbering.AssignKeepsNamesDistinct | pcbnew/tools/pad_tool.cpp:342-351 | after numbering a pad with a free name, no two selected pads share a name |
| PadNumbering.ReleaseKeepsInvariant | pcbnew/tools/pad_tool.cpp:366-383 | giving a number back keeps number conservation and paired names |
| PadNumbering.ReleaseConservesNumbers | pcbnew/tools/pad_tool.cpp:368-375 | giving a number back moves it from its entry to the queue: still held exactly once |
| PadNumbering.ReleasePairsNames | pcbnew/tools/pad_tool.cpp:366-383 | giving a number back keeps names and oldNames entries paired |
| PadNumbering.VisitKeepsInvariant | pcbnew/tools/pad_tool.cpp:335-384 | visiting a pad, by drag or click, keeps the invariant |
| PadNumbering.VisitAllKeepsInvariant | pcbnew/tools/pad_tool.cpp:332-384 | visiting the whole collected list keeps the invariant |
| PadNumbering.AssignTakesAnnouncedNumber | pcbnew/tools/pad_tool.cpp:337-360 | the number comes from the front of the queue (popped) or from the counter (plus exactly 1). It is the one the popup announced. The pad gets `prefix + number`, a name no selected pad has, and is selected; its other fields are unchanged. oldNames gains `(number, original name)`. No other pad changes. A Modify is recorded. |
| PadNumbering.ReleaseRestoresOriginalName | pcbnew/tools/pad_tool.cpp:366-383 | the pad gets its original name back and is unselected; its other fields are unchanged. oldNames is exactly the old map without the pad's entry. The queue is exactly the old queue with the pad's number appended, so its front, the next announced number, is the oldest released. No other pad changes. |
| PadNumbering.NumbersHeldExactlyOnce | pcbnew/tools/pad_tool.cpp:342-375 | every number handed out is in exactly one place: the queue or a live entry. Numbers never handed out are in neither. |
| PadNumbering.RenamedPadsAreRegistered | pcbnew/tools/pad_tool.cpp:337-352 | every renamed pad was registered with `commit.Modify`, so a revert can restore it |
| PadNumbering.DragVisitOnlyAdds | pcbnew/tools/pad_tool.cpp:335-366 | a drag visit leaves selected pads alone and ends with the pad selected |
| PadNumbering.DragSkipsSelectedPad | pcbnew/tools/pad_tool.cpp:335-366 | in a drag, later visits of a selected pad change nothing |
| PadNumbering.DragIgnoresRepeats | pcbnew/tools/pad_tool.cpp:332-384 | a drag numbers each hit pad once: the same effect as visiting each hit pad once, in first-hit order |
| PadNumbering.DragOnlyAdds | pcbnew/tools/pad_tool.cpp:332-384 | after a drag, earlier numbered pads keep their names and every hit pad is selected; nothing is given back |
| PadNumbering.ClickRevisitUndoesNumbering | pcbnew/tools/pad_tool.cpp:330-383 | a click whose list is `[a, b, a]` numbers `a` and gives it back at once, while `b` stays numbered |
| PadNumbering.VisitAllConcat | pcbnew/tools/pad_tool.cpp:332 | visiting two lists in turn is visiting their concatenation |
| PadNumbering.FirstThreeClicks | pcbnew/tools/pad_tool.cpp:337-353 | clicks on pads 0, 1, 2 with prefix P from 1 give P1, P2, P3, the counter at 4 and three entries |
| PadNumbering.CompactnessExample | pcbnew/tools/pad_tool.cpp:342-375 | clicks on pads 0,1,2,1,3 with prefix P from 1 give P1, "2", P3, P2, and the counter ends at 4 |
| PadNumbering.ReleaseTwo | pcbnew/tools/pad_tool.cpp:366-383 | after three clicks, clicking P2 again queues 2, restores the name "2" and erases only the P2 entry |
| PadNumbering.ReuseTwo | pcbnew/tools/pad_tool.cpp:342-353 | with 2 queued, the next pad clicked becomes P2, the queue empties and the counter stays at 4 |
| PadNumbering.ReleaseThreeThenTwo | pcbnew/tools/pad_tool.cpp:366-383 | giving back P3 then P2 queues 3 before 2 and restores the names "3" and "2" |
| PadNumbering.OldestReleasedReusedFirst | pcbnew/tools/pad_tool.cpp:342-377 | after releasing 3 then 2, the next pad gets P3 and 2 waits |
| EnumSession.FirstEnd | pcbnew/tools/pad_tool.cpp:278-394 | the index of the first cancel, activate, Enter or double-click event; no earlier event ends the loop |
| EnumSession.Candidates | pcbnew/tools/pad_tool.cpp:311-330 | no pad twice in a row, and every pad hit at any test point of the move is a candidate |
| EnumSession.Step | pcbnew/tools/pad_tool.cpp:282-406 | keeps the pad count and the prefix; stated by `StepKeepsInvariant`, `StepCommit` and `FirstPointTestsCursorOnly` |
| EnumSession.RunSpec | pcbnew/tools/pad_tool.cpp:278-408 | keeps the pad count and the prefix; stated by `RunKeepsInvariant` and `RunClosesCommitOnce` |
| EnumSession.CandidatesInRange | pcbnew/tools/pad_tool.cpp:321-330 | the pads a move collects are pads of the board |
| EnumSession.StepKeepsInvariant | pcbnew/tools/pad_tool.cpp:282-406 | every event keeps the invariant |
| EnumSession.VisitAppendsModify | pcbnew/tools/pad_tool.cpp:335-337 | one visit appends at most its own Modify to the commit |
| EnumSession.RunKeepsInvariant | pcbnew/tools/pad_tool.cpp:278-408 | the whole session keeps number conservation and paired names |
| EnumSession.VisitAllAppendsModifies | pcbnew/tools/pad_tool.cpp:332-337 | visiting pads only appends Modify intents to the commit |
| EnumSession.StepCommit | pcbnew/tools/pad_tool.cpp:282-394 | an ending event appends exactly its closing entry; any other event appends only Modify intents |
| EnumSession.RunExtendsCommit | pcbnew/tools/pad_tool.cpp:278-408 | the session only appends to the commit |
| EnumSession.RunWithoutEndOnlyModifies | pcbnew/tools/pad_tool.cpp:278-408 | without an ending event the commit holds only Modify intents |
| EnumSession.RunEndClosesCommit | pcbnew/tools/pad_tool.cpp:282-394 | the first ending event's closing entry is the last entry, and all before it are Modify intents |
| EnumSession.RunClosesCommitOnce | pcbnew/tools/pad_tool.cpp:282-394 | the commit is only ever appended to. If an ending event arrives, it ends with exactly one entry: Revert after a cancel, or Push("Renumber pads") after activate, Enter or a double-click. Everything before that entry is a Modify. Without an ending event, the commit holds only Modify intents. |
| EnumSession.FirstPointTestsCursorOnly | pcbnew/tools/pad_tool.cpp:305-330 | the first drag or click tests only the cursor point: `Step` visits exactly `unique` of the hits at the cursor, by click or drag as the event says, stores the cursor and clears the first-point flag |
| EnumSession.RenumberSession.constructor | pcbnew/tools/pad_tool.cpp:258-270 | the start state, with the first-point flag set; it satisfies the invariant when no pad carries the selected flag |
| EnumSession.RenumberSession.AssignPad | pcbnew/tools/pad_tool.cpp:335-353 | the in-place update equals `Assign` |
| EnumSession.RenumberSession.ReleasePad | pcbnew/tools/pad_tool.cpp:366-383 | the in-place update equals `Release` |
| EnumSession.RenumberSession.AssignOrRelease | pcbnew/tools/pad_tool.cpp:332-384 | equals `Visit`; keeps the invariant if it held before |
| EnumSession.RenumberSession.VisitPads | pcbnew/tools/pad_tool.cpp:332-384 | the loop over the collected pads equals `VisitAll`; keeps the invariant if it held before |
| EnumSession.RenumberSession.Sweep | pcbnew/tools/pad_tool.cpp:299-385 | a drag or click changes the numbering exactly as `Step` does and clears the first-point flag; keeps the invariant if it held before |
| EnumSession.RenumberSession.HandleEvent | pcbnew/tools/pad_tool.cpp:282-406 | one turn equals `Step`. It ends the loop exactly on cancel, activate, Enter or a double-click. It keeps the invariant if it held before. |
| EnumSession.RenumberSession.Run | pcbnew/tools/pad_tool.cpp:278-408 | the loop equals `RunSpec`; keeps the invariant if it held before |
| PushPads.ModulePushLog | pcbnew/tools/pad_tool.cpp:160-186 | the pads of one footprint that pass the filters, in the footprint's order |
| PushPads.ModuleInScope | pcbnew/tools/pad_tool.cpp:153-158 | the source footprint is always in scope; without "same footprints" it is the only one |
| PushPads.PadPasses | pcbnew/tools/pad_tool.cpp:160-180 | the source pad passes in its own footprint; with every filter off every pad passes |
| PushPads.ShouldPush | pcbnew/tools/pad_tool.cpp:153-180 | the source pad is pushed; with every filter off exactly the pads of footprints in scope are pushed |
| PushPads.PushLog | pcbnew/tools/pad_tool.cpp:151-187 | every pushed pad belongs to a footprint in scope |
| PushPads.PushOneStep | pcbnew/tools/pad_tool.cpp:160-185 | one inner-loop turn extends the footprint's log by the pad exactly when it passes |
| PushPads.PushModuleStep | pcbnew/tools/pad_tool.cpp:151-186 | one outer-loop turn extends the log by the footprint's log exactly when the footprint is in scope |
| PushPads.DoPushPadProperties | pcbnew/tools/pad_tool.cpp:140-188 | appends one Modify per pad of `PushLog`, in order, each just before that pad gets the source's settings. Every other pad is unchanged. |
| PushPads.PushFootprintPads | pcbnew/tools/pad_tool.cpp:160-186 | the inner loop appends the footprint's passing pads, in order, and updates exactly those |
| PushPads.ModulePushLogMembership | pcbnew/tools/pad_tool.cpp:160-185 | a pad of the footprint is pushed if and only if it passes every enabled filter |
| PushPads.PushLogMembership | pcbnew/tools/pad_tool.cpp:151-185 | a pad is pushed if and only if some footprint lists it and it passes `ShouldPush` there: the footprint is in scope, the FPID matches, and the filters and the aperture case pass |
| PushPads.ModulePushLogDistinct | pcbnew/tools/pad_tool.cpp:160-182 | within one footprint no pad is registered twice |
| PushPads.PushLogDistinct | pcbnew/tools/pad_tool.cpp:151-185 | on a well-formed board no pad is registered with `commit.Modify` twice |
| PushPads.SourcePadIsPushed | pcbnew/tools/pad_tool.cpp:151-185 | the source pad always passes its own filters |
| PushPads.PushStaysInScope | pcbnew/tools/pad_tool.cpp:154-158 | every pushed pad belongs to a footprint with the source's FPID, and to the source's own footprint unless "same footprints" is set |
| PushPads.AllPassModuleLog | pcbnew/tools/pad_tool.cpp:160-186 | with every filter off, every pad of the footprint is pushed, in order |
| PushPads.UnfilteredLogUpTo | pcbnew/tools/pad_tool.cpp:151-186 | with every filter off and no "same footprints", only the source footprint contributes |
| PushPads.UnfilteredPushCoversOwnFootprint | pcbnew/tools/pad_tool.cpp:151-186 | with every filter off and no "same footprints", the pushed pads are exactly the source footprint's pads, in order |
| PadTool.EnumerateCommitShape | pcbnew/tools/pad_tool.cpp:236-394 | no commit when there is no first footprint, it has no pads, or the dialog is not OK. Otherwise the session's Modify intents, closed by exactly one Revert or one Push("Renumber pads") if an ending event arrives. |
| PadTool.EnumerateSpec | pcbnew/tools/pad_tool.cpp:234-418 | no commit and no change when the guards return early; otherwise the pads of the first footprint end unselected; the pad count is kept |
| PadTool.StaleFlagAfterEnumeration | pcbnew/tools/pad_tool.cpp:410-414 | on two footprints, a click on the second footprint's pad then Activate leaves that pad named "P1" and still flagged |
| PadTool.RegisteredPads | pcbnew/tools/pad_tool.cpp:337 | a pad is listed exactly when the commit holds a Modify for it |
| PadTool.EnumerateSpecFixed | pcbnew/tools/pad_tool.cpp:234-418 | the corrected clean-up: no change when the guards return early, the pad count is kept |
| PadTool.FixedEnumerationLeavesNoFlag | pcbnew/tools/pad_tool.cpp:410-414 | with the corrected clean-up no pad is left flagged, and the commit is the one the code as written makes |
| PadTool.EnumerateKeepsInvariant | pcbnew/tools/pad_tool.cpp:258-408 | if no pad outside the selection tool's selection carries the selected flag on entry, then at the end of every session every number is held exactly once and every renamed pad can get its name back |
| PadTool.PadTool.constructor | pcbnew/tools/pad_tool.cpp:42-45 | `m_padCopied` starts false |
| PadTool.PadTool.Reset | pcbnew/tools/pad_tool.cpp:52-55 | clears `m_padCopied` and nothing else |
| PadTool.PadTool.CopyPadSettings | pcbnew/tools/pad_tool.cpp:116-137 | only a selection of exactly one pad copies that pad into the master pad and sets the flag; any other selection changes nothing |
| PadTool.PadTool.PushPadSettings | pcbnew/tools/pad_tool.cpp:190-231 | no commit and no change unless the selection is one pad with a parent and the dialog was not cancelled. Otherwise the commit is `Modifies(PushLog)` followed by Push("Push Pad Settings"). Return code 1 means every footprint with the same FPID. |
| PadTool.PadTool.EnumeratePads | pcbnew/tools/pad_tool.cpp:234-418 | the commit and the pads equal `EnumerateSpec`: the guards, unflagging the selection at line 262, the session and the final clean-up as written |
| PadTool.ClearPadsSelection | pcbnew/tools/pad_tool.cpp:410-414 | the loop unselects exactly the listed pads and changes nothing else (also used for `selectionClear` at line 262, on the selection's pads) |

## Findings

| source | as written | input that shows it | evidently intended | confidence | as-written member | corrected member |
|---|---|---|---|---|---|---|
| pcbnew/tools/pad_tool.cpp:410-414 | the clean-up unflags only the pads of the first footprint | two footprints with one pad each; a click on the second footprint's pad, then Activate | every pad the session flagged is unflagged, so the next session does not treat it as already numbered | medium, not executed | PadTool.StaleFlagAfterEnumeration | PadTool.FixedEnumerationLeavesNoFlag |

`PadTool.PadTool.EnumeratePads` keeps the behaviour as written; `PadTool.EnumerateSpecFixed`
is the corrected clean-up, and `PadTool.EnumerateKeepsInvariant` states the hypothesis that
the corrected version re-establishes for the next session.

## Left out

- `pastePadProperties` (lines 89-113): a plain loop of foreign `ImportSettingsFrom` calls with no logic of its own.
- `Init`, context menus, the status popup, cursor shape, `PushTool`/`PopTool`, `SetMsgPanel`, `Refresh`, view updates: user-interface effects with no state the model needs. The popup's "next number" is `PadNumbering.NextNumber`.
- `include/profile.h` (timing and printing): `include/profile.h` is not part of this model.
- `GENERAL_COLLECTOR::Collect` and its guide settings: a foreign spatial query, modelled as the parameter `hit`.
- `EuclideanNorm`: a square root in floating point, modelled as the parameter `norm` returning the truncated integer distance.
- BOARD_COMMIT internals: the model records the intents. Restoring the pads on `Revert` is the host's job. `RenamedPadsAreRegistered` shows that every renamed pad was registered first.
- `ImportSettingsFrom`: foreign, modelled as the opaque function `importSettings`.
- PushPads.DoPushPadProperties: takes the source pad as a value. In the code it is a reference, and the push also rewrites the source pad with its own settings. The model does not capture any effect of that self-import on later comparisons.
- PushPads.PadPasses: orientations are integers (tenths of a degree), compared exactly. The code subtracts and compares `double` values.
- EnumSession.RenumberSession.AssignPad: `seqPadNum` is an unbounded integer. 32-bit overflow of the counter is not modelled.
- PadTool.PadTool.EnumeratePads: `selectionClear` at line 262 is modelled as unflagging the pads of the selection tool's selection, given as the parameter `selection`; the selection tool itself is not part of this model. At cancel (line 284) the selection holds none of the session's pads, because they are flagged directly, so that call is left out.
- PadNumbering.Release: the `wxASSERT` at line 369 is not modelled as a failure. The branch with a missing entry only unselects the pad, as the release build does. The invariant shows that branch is never taken when no pad outside the selection carries the flag on entry (`EnumerateKeepsInvariant`); a stray flag from an earlier session can reach it (see "## Findings").
- Sampling.SampleSpacingBelowStep: bounds only the spacing of consecutive test points, and only when `norm` bounds both components of the move. It does not show that no pad is skipped. The stretch between the last test point and the old position is `line_step` plus the truncation remainder (`FinalStretch`), which can be much longer than the step (`FinalStretchExample`). The old position is stored for every event at line 406, including events that test nothing, so it may itself never have been tested. A move that only clips a pad's corner can pass it between test points.
- `Wait()` returning no event ends the loop: modelled as the event sequence running out.
- PadTool.PadTool.CopyPadSettings: the master pad lives in the board's design settings. The model keeps it as a field of the tool object.
