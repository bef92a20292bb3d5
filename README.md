# Secretary routine, modelled in Dafny

This project models `SecretaryRoutine`, the routine of the FirstLady game
automation that manages the capitol's secretary positions. It covers one cycle of the
routine. Evictions run first, when `auto_remove` is active: each position whose
configured delay has run out since its last approve is checked, and the
current appointee is dismissed. Then admission runs: every position that shows
an applicant badge is visited, and its candidates are accepted or rejected
against the alliance whitelist. The only state the routine keeps is
`last_approve`, the time of the last approve of each of the seven positions.

The device and the vision calls become input values:

- what the template matcher and OCR return in each iteration (a `Frame`);
- whether the secretary-menu anchor shows on each recovery attempt (a script
  of booleans);
- what each position shows when it is visited (`Visit`, `RemoveVisit`);
- the current time, an explicit `now` in whole seconds.

Taps, swipes, back presses and the rejected-alliance log are recorded as an
abstract trace of `Action`s. A `RuntimeError` becomes the outcome
`SecretaryNotAccessible`.

Modules, one per part of the routine:

- `Types`: the positions and their catalog order, points, the configuration,
  and actions.
- `Buttons`: the (y, x) ordering of accept and reject controls.
- `Recovery`: `exit_to_secretary_menu`.
- `Applicants`: `find_positions_with_applicants`.
- `Admission`: the candidate loop of `process_secretary_position`, and the
  visit of one position.
- `Eviction`: `find_positions_to_remove` and `process_remove_position`.
- `Routine`: the class `SecretaryRoutine`. It holds the `lastApprove` field,
  updated in place by its methods. Each method is proved equal to the
  specification function of the matching module; the lemmas about those
  functions carry the properties.

Behaviour of the code as written, which the model follows:

- A whitelisted accept does not update `last_approve`. The timer is set only
  by an accept under an empty whitelist, or by the confirm-only fallback of a
  rejection (`Admission.AdmissionStamp`).
- The `accepted` counter is never read, and it does not move under an empty
  whitelist (`Admission.AdmissionOpenPolicy`).
- The cap of five counts resolved candidates, not iterations. A missing
  confirm control makes the loop go round again without counting, so the loop
  is bounded only by how long the device keeps answering
  (`Admission.RetriesAreNotCapped`). The model ends the loop when the frame
  script runs out, in the same way as a failed screenshot.
- A rejected candidate whose topmost reject control is more than 10 px away
  vertically gets no tap at all, yet counts as processed.
- A configured delay of 0 counts as no delay.
- `auto_remove.active` defaults to true when it is absent. The result of the
  eviction pass is ignored: it never decides the cycle's result
  (`Routine.CycleOutcome`).

## Model

| member | source | states |
|---|---|---|
| Buttons.FindButtonsCorrect | src/automation/routines/secretary.py:57-97 | the buttons are a permutation of the matches, sorted ascending by y and then by x |
| Buttons.TopmostButton | src/automation/routines/secretary.py:57-97 | there are as many buttons as matches, so none when there are no matches; the first button is one of the matches and is at or above (then left of) every match |
| Buttons.SortedPermutationUnique | src/automation/routines/secretary.py:68 | any two (y, x)-sorted permutations of the same matches are equal, so the order of the result does not depend on how the sort breaks ties |
| Buttons.SortByYXCorrect | src/automation/routines/secretary.py:68 | the insertion sort returns a (y, x)-sorted permutation of its input |
| Recovery.RecoverMeaning | src/automation/routines/secretary.py:125-141 | recovery succeeds iff the anchor shows on one of the first 10 attempts; on success the back presses equal the index of the first attempt that sees it; on failure there are exactly 10 back presses |
| Recovery.AlreadyAnchored | src/automation/routines/secretary.py:129-131 | an anchor seen on the first attempt gives success with no back press |
| Recovery.ExitToSecretaryMenu | src/automation/routines/secretary.py:125-141 | the bounded retry loop returns what `Recover` specifies: success at the first attempt that sees the anchor, with one back press per earlier attempt, else failure after 10 presses |
| Applicants.ApplicantPositionsMeaning | src/automation/routines/secretary.py:342-388 | a position is reported iff its icon was found and some badge lies within the inclusive box around its first icon match; the report follows catalog order with each position at most once; no badge gives no position |
| Applicants.DefaultBox | src/automation/routines/secretary.py:372-386 | without an `applicant_offset` setting, a position is reported iff some badge lies within 150 px horizontally and 50 px vertically of its first icon match |
| Applicants.NearBoundary | src/automation/routines/secretary.py:378-383 | the box is inclusive: a badge exactly `offset` away counts, and one pixel further in x or in y does not |
| Applicants.FindPositionsWithApplicants | src/automation/routines/secretary.py:342-388 | the two loops that locate the icons and then scan the badges (with `break`) return exactly `ApplicantPositions` |
| Admission.StepAcceptPolicy | src/automation/routines/secretary.py:194-234 | an iteration stops the loop iff the screenshot fails or no accept control shows; the accept tapped is always the topmost; it is tapped iff the whitelist is empty or holds the read alliance; a rejected candidate is logged first |
| Admission.StepRejectAlignment | src/automation/routines/secretary.py:240-257 | the reject control tapped is the topmost one; it is tapped iff the candidate is rejected and that control lies within 10 px vertically of the accept; a misaligned one leads to no tap, yet the candidate is resolved |
| Admission.AlignBoundary | src/automation/routines/secretary.py:246 | the 10 px tolerance is inclusive: a reject control 10 px above or below the accept is aligned, one 11 px away is not |
| Admission.StepConfirmAndStamp | src/automation/routines/secretary.py:240-273 | confirm is tapped iff the candidate is rejected, confirm is found, and there is no reject control or an aligned one; the iteration sets the timer iff the whitelist is empty or this is the confirm-only fallback; it retries iff confirm is missing where it is needed |
| Admission.LoopCounts | src/automation/routines/secretary.py:191-274 | `processed` never exceeds 5 and grows by exactly the number of resolved candidates among the iterations run; `accepted` grows by at most as much |
| Admission.AdmissionExit | src/automation/routines/secretary.py:191-204 | every iteration but the last found a candidate; if fewer than 5 were resolved before the script ran out, the last iteration had a failed screenshot or no accept control; if 5 were resolved, the last iteration resolved the fifth candidate |
| Admission.AdmissionStamp | src/automation/routines/secretary.py:225-271 | the visit sets the timer iff some iteration that ran saw a candidate under an empty whitelist, or a rejected candidate with no reject control and a confirm found |
| Admission.AdmissionOpenPolicy | src/automation/routines/secretary.py:268-273 | under an empty whitelist the timer is set iff some candidate was processed, and `accepted` stays 0 |
| Admission.RetriesAreNotCapped | src/automation/routines/secretary.py:246-267 | a candidate whose confirm is never found is retried on every frame, with `processed` staying 0, however many frames there are |
| Admission.VisitOutcome | src/automation/routines/secretary.py:151-288 | a visit fails iff the position was found and either (the list is not full and the list control is missing) or (the list is full, or the list control was found, and the final recovery failed); the visit sets the timer iff it reached a list that is not full, accept controls showed on opening it, and the candidate loop set it; a vanished position is skipped with no action |
| Admission.AdmitAllMeaning | src/automation/routines/secretary.py:482-485 | the visits succeed iff every visit succeeds; no timer is lost; only visited positions' timers change, and a changed timer reads `now` |
| Admission.AdmitAllStopsAtFailure | src/automation/routines/secretary.py:482-485 | the visits stop at the first failing one: the sweep equals the sweep over the list cut just after it, so later positions are neither visited nor touched |
| Admission.AdmitAllTimerAt | src/automation/routines/secretary.py:482-485 | in a sweep that reaches a position (every earlier visit succeeded), that position's timer ends at `now` if its visit set it and keeps its value otherwise |
| Eviction.ScanMeaning | src/automation/routines/secretary.py:394-439 | a position is listed iff its delay is set and not 0, its cooldown is over, it is not vacant, and its icon shows; the list is in catalog order; exactly the due vacant positions have their timer reset to `now` |
| Eviction.ScanDisabled | src/automation/routines/secretary.py:398-407 | with no `auto_remove` section or an empty `title_cfg`, nothing is listed and no timer changes |
| Eviction.CooldownBoundary | src/automation/routines/secretary.py:418-421 | with delay D configured and the last approve d seconds ago, the position is due iff d >= D |
| Eviction.RemoveMeaning | src/automation/routines/secretary.py:290-339 | the timer is reset in exactly three cases: applicants are queued; there is no appointee; or both the dismiss and the blue confirm succeed. Dismiss is tapped only with an empty queue and the appoint marker showing. A vanished position returns true with no action; otherwise the result is recovery's |
| Eviction.RemoveAllMeaning | src/automation/routines/secretary.py:449-453 | the evictions succeed iff each one does; only listed positions' timers change, and a changed timer reads `now` |
| Eviction.RemoveAllStopsAtFailure | src/automation/routines/secretary.py:449-453 | the evictions stop at the first failing one: the sweep equals the sweep over the list cut just after it, so later positions are neither visited nor touched |
| Eviction.RemoveAllTimerAt | src/automation/routines/secretary.py:449-453 | in a sweep that reaches a position (every earlier eviction succeeded), that position's timer ends at `now` if its eviction reset it and keeps its value otherwise |
| Eviction.EvictAllTimers | src/automation/routines/secretary.py:394-453 | after the eviction pass every timer keeps its value or reads `now`, and a position that was not due keeps its timer |
| Routine.CycleOutcome | src/automation/routines/secretary.py:38-55 | the cycle raises iff the capitol is found, no position has an applicant, and the probe of the first position or of its list fails; it returns false iff the capitol is missing or some visit fails; switching `auto_remove` off does not change the outcome |
| Routine.CycleTimers | src/automation/routines/secretary.py:38-55 | over a cycle every timer keeps its value or becomes `now`, and none is lost; when no timer lies after `now`, no timer moves backwards or past `now` |
| Routine.SecretaryRoutine.constructor | src/automation/routines/secretary.py:23-32 | every one of the seven positions starts with its timer at the creation time |
| Routine.SecretaryRoutine.ProcessSecretaryPosition | src/automation/routines/secretary.py:151-288 | returns the visit's result and actions, and sets the position's timer to `now` iff the visit stamps it; no other timer changes |
| Routine.SecretaryRoutine.AdmitCandidates | src/automation/routines/secretary.py:191-274 | the `while processed < 5` loop issues exactly the specified actions and sets the timer iff the specified loop stamps it |
| Routine.SecretaryRoutine.ProcessRemovePosition | src/automation/routines/secretary.py:290-339 | returns the eviction's result and actions, and resets only that position's timer, exactly when `RemoveOf` says so |
| Routine.SecretaryRoutine.FindPositionsToRemove | src/automation/routines/secretary.py:394-439 | the list and the timers it leaves are exactly those of `Scan` |
| Routine.SecretaryRoutine.ProcessAllAutoRemovePositions | src/automation/routines/secretary.py:441-453 | the result, timers and actions are exactly those of the eviction pass `EvictAll` |
| Routine.SecretaryRoutine.RemoveListed | src/automation/routines/secretary.py:449-453 | the loop that stops at the first failed eviction yields exactly `RemoveAll` |
| Routine.SecretaryRoutine.ProcessAllSecretaryPositions | src/automation/routines/secretary.py:456-485 | the outcome, timers and actions are exactly those of `AdmissionPass`, including the probe that raises |
| Routine.SecretaryRoutine.VisitAll | src/automation/routines/secretary.py:482-485 | the loop that stops at the first failed visit yields exactly `AdmitAll` |
| Routine.SecretaryRoutine.ExecuteInternal | src/automation/routines/secretary.py:38-55 | the cycle's outcome, timers and actions are exactly those of `CycleOf` |

## Left out

- Template matching, OCR, screenshots and `cv2.imread`: the model takes only their results, as inputs.
- Taps, swipes, back presses and `human_delay`: they are kept only as an abstract action trace, without coordinates for position icons and without timings.
- `open_profile_menu`: a float percentage-to-pixel conversion followed by taps. Only the fact that it runs is recorded.
- `manual_deny`, with `play_beep` and `input`: a human-in-the-loop pause that does not change the decisions.
- Exceptions raised by foreign calls, and the `except` handlers that catch them: the vision and device calls are taken as total. `execute_with_error_handling` and `_execute` belong to the base class, which is not part of this model.
- Logging, other than the rejected-alliance log, which is an action.
- Loading `CONFIG` and `CONTROL_LIST`: configuration is an immutable parameter. An `auto_remove` section that is missing or empty is `None`.
- `automation.game_state["is_home"]`: state of the surrounding automation.
- The `auto_remove` field initialised in `__init__`: it is never read.
- `verify_secretary_menu`'s wait with a timeout: each recovery attempt only reads whether the anchor showed.
- Wall-clock time: each operation reads one `now`, in whole seconds, so every `datetime.now()` within one call returns the same value. Delays are integers, not fractional seconds.
- Unbounded retries: the admission loop is bounded by the frame script. When the script runs out, the loop stops as if the screenshot had failed; the source itself would keep going for as long as the device keeps answering.
