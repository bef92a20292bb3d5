/**
 * The admission loop of `process_secretary_position`: per iteration, take a
 * screenshot, find the topmost accept control, and accept or reject that
 * candidate against the alliance whitelist; stop after five resolved
 * candidates or when a screenshot fails or no accept control remains.
 *
 * What the device shows in iteration k is the k-th Frame of a script; when
 * the script is exhausted the screenshot fails.
 */
module Admission {
  import opened Types
  import opened Buttons
  import opened Recovery

  /** The per-visit cap on resolved candidates. */
  const MaxProcessed: nat := 5

  /** More accept controls than this on opening the list: swipe up first. */
  const SwipeThreshold: nat := 5

  /** The vertical tolerance, in pixels, between a row's accept and reject controls. */
  const AlignTolerance: nat := 10

  /**
   * The answers of the device and of the vision calls in one iteration:
   * whether the screenshot was taken and read back, the raw accept matches,
   * the alliance text and raw text read next to the topmost candidate, the raw
   * reject matches, and whether the confirm control was found (and tapped).
   */
  datatype Frame = Frame(
    screenshotTaken: bool,
    screenshotRead: bool,
    acceptMatches: seq<Point>,
    allianceText: string,
    originalText: string,
    rejectMatches: seq<Point>,
    confirmFound: bool)

  /**
   * The result of one iteration: `Stop` leaves the loop (`break`), `Retry`
   * goes round again without counting the candidate (`continue`), `Resolved`
   * counts it, `accepted` telling whether the accepted counter moves and
   * `stamp` whether the position's last-approve time is set.
   */
  datatype Step =
    | Stop
    | Retry(actions: seq<Action>)
    | Resolved(actions: seq<Action>, accepted: bool, stamp: bool)

  /** The reject control sits on the candidate's row. */
  predicate Aligned(reject: Point, accept: Point) {
    Abs(reject.y - accept.y) <= AlignTolerance
  }

  /** The tolerance is inclusive: 10 px off the row is aligned, 11 px is not. */
  lemma AlignBoundary(accept: Point, x: int)
    ensures Aligned(Point(x, accept.y + 10), accept) && Aligned(Point(x, accept.y - 10), accept)
    ensures !Aligned(Point(x, accept.y + 11), accept) && !Aligned(Point(x, accept.y - 11), accept)
  {
  }

  /** The frame shows a candidate: screenshot taken and read, an accept control found. */
  predicate Live(f: Frame) {
    f.screenshotTaken && f.screenshotRead && |f.acceptMatches| > 0
  }

  function Topmost(f: Frame): Point
    requires |f.acceptMatches| > 0
  {
    TopmostButton(f.acceptMatches);
    FindButtons(f.acceptMatches)[0]
  }

  function TopmostReject(f: Frame): Point
    requires |f.rejectMatches| > 0
  {
    TopmostButton(f.rejectMatches);
    FindButtons(f.rejectMatches)[0]
  }

  /** The whitelist is non-empty and the candidate's alliance is not on it. */
  predicate Rejected(wl: seq<string>, f: Frame) {
    |wl| > 0 && f.allianceText !in wl
  }

  /** One iteration of the loop body. */
  function StepOf(wl: seq<string>, f: Frame): Step {
    if !f.screenshotTaken || !f.screenshotRead then Stop
    else
      var accepts := FindButtons(f.acceptMatches);
      if |accepts| == 0 then Stop
      else
        var top := accepts[0];
        if |wl| == 0 then Resolved([TapAccept(top)], false, true)
        else if f.allianceText in wl then Resolved([TapAccept(top)], true, false)
        else
          var logged := [LogRejected(f.allianceText, f.originalText)];
          var rejects := FindButtons(f.rejectMatches);
          if |rejects| > 0 then
            var reject := rejects[0];
            if Aligned(reject, top) then
              if f.confirmFound then Resolved(logged + [TapReject(reject), TapConfirm], false, false)
              else Retry(logged + [TapReject(reject)])
            else Resolved(logged, false, false)
          else if f.confirmFound then Resolved(logged + [TapConfirm], false, true)
          else Retry(logged)
  }

  function StepActions(s: Step): seq<Action> {
    if s.Stop? then [] else s.actions
  }

  /**
   * The accept control tapped, if any, is the topmost one, and it is tapped
   * exactly when the whitelist is empty or holds the candidate's alliance;
   * a rejected candidate is always logged first.
   */
  lemma StepAcceptPolicy(wl: seq<string>, f: Frame)
    ensures StepOf(wl, f).Stop? <==> !Live(f)
    ensures forall a :: a in StepActions(StepOf(wl, f)) && a.TapAccept? ==> a.at == Topmost(f)
    ensures Live(f) ==>
      ((exists a :: a in StepActions(StepOf(wl, f)) && a.TapAccept?) <==> !Rejected(wl, f))
    ensures Live(f) && !Rejected(wl, f) ==> StepOf(wl, f) == Resolved([TapAccept(Topmost(f))], |wl| > 0, |wl| == 0)
    ensures Live(f) && Rejected(wl, f) ==>
      StepActions(StepOf(wl, f))[0] == LogRejected(f.allianceText, f.originalText)
  {
    TopmostButton(f.acceptMatches);
    var s := StepOf(wl, f);
    if Live(f) && Rejected(wl, f) {
      assert s.Retry? || s.Resolved?;
      assert forall a :: a in StepActions(s) ==> !a.TapAccept?;
    }
  }

  /**
   * The reject control tapped is the topmost one, and it is tapped exactly when
   * the candidate is rejected and that control lies within 10 px vertically
   * of the candidate's accept control. A topmost reject control further away
   * leads to no tap at all, yet the candidate counts as resolved.
   */
  lemma StepRejectAlignment(wl: seq<string>, f: Frame)
    ensures forall a :: a in StepActions(StepOf(wl, f)) && a.TapReject? ==>
      a.at == TopmostReject(f) && Aligned(a.at, Topmost(f))
    ensures (exists a :: a in StepActions(StepOf(wl, f)) && a.TapReject?) <==>
      Live(f) && Rejected(wl, f) && |f.rejectMatches| > 0 && Aligned(TopmostReject(f), Topmost(f))
    ensures Live(f) && Rejected(wl, f) && |f.rejectMatches| > 0 && !Aligned(TopmostReject(f), Topmost(f)) ==>
      StepOf(wl, f) == Resolved([LogRejected(f.allianceText, f.originalText)], false, false)
  {
    TopmostButton(f.acceptMatches);
    TopmostButton(f.rejectMatches);
    var s := StepOf(wl, f);
    if Live(f) && Rejected(wl, f) && |f.rejectMatches| > 0 && Aligned(TopmostReject(f), Topmost(f)) {
      assert TapReject(TopmostReject(f)) in StepActions(s);
    } else {
      assert forall a :: a in StepActions(s) ==> !a.TapReject?;
    }
  }

  /**
   * Confirm is tapped only on the reject path, after an aligned reject tap or
   * when no reject control exists at all; only that confirm-only fallback
   * sets the timer on the reject path. A missing confirm control makes the
   * iteration a retry.
   */
  lemma StepConfirmAndStamp(wl: seq<string>, f: Frame)
    ensures TapConfirm in StepActions(StepOf(wl, f)) <==>
      Live(f) && Rejected(wl, f) && f.confirmFound &&
      (|f.rejectMatches| == 0 || Aligned(TopmostReject(f), Topmost(f)))
    ensures StepOf(wl, f).Resolved? && StepOf(wl, f).stamp <==>
      Live(f) && (|wl| == 0 || (Rejected(wl, f) && |f.rejectMatches| == 0 && f.confirmFound))
    ensures StepOf(wl, f).Retry? <==>
      Live(f) && Rejected(wl, f) && !f.confirmFound &&
      (|f.rejectMatches| == 0 || Aligned(TopmostReject(f), Topmost(f)))
  {
    TopmostButton(f.acceptMatches);
    TopmostButton(f.rejectMatches);
  }

  /**
   * The loop state after running the script: the final `processed` count,
   * how far `accepted` moved, whether the timer was set, the actions issued
   * and how many frames (iterations) were used.
   */
  datatype Tally = Tally(processed: nat, accepted: nat, stamped: bool, actions: seq<Action>, used: nat)

  /** What each iteration of the script does, in order. */
  function Steps(wl: seq<string>, frames: seq<Frame>): (r: seq<Step>)
    ensures |r| == |frames|
  {
    if frames == [] then [] else [StepOf(wl, frames[0])] + Steps(wl, frames[1..])
  }

  lemma {:induction false} StepsAt(wl: seq<string>, frames: seq<Frame>, k: nat)
    requires k < |frames|
    ensures Steps(wl, frames)[k] == StepOf(wl, frames[k])
  {
    if k > 0 {
      StepsAt(wl, frames[1..], k - 1);
      assert frames[1..][k - 1] == frames[k];
    }
  }

  lemma {:induction false} StepsAll(wl: seq<string>, frames: seq<Frame>)
    ensures forall i :: 0 <= i < |frames| ==> Steps(wl, frames)[i] == StepOf(wl, frames[i])
  {
    forall i | 0 <= i < |frames| ensures Steps(wl, frames)[i] == StepOf(wl, frames[i]) {
      StepsAt(wl, frames, i);
    }
  }

  /**
   * The loop control over the iterations' steps, from iteration `k` with
   * `processed` candidates already resolved.
   */
  function AdmissionLoop(steps: seq<Step>, k: nat, processed: nat): Tally
    requires k <= |steps|
    decreases |steps| - k
  {
    if processed >= MaxProcessed || k == |steps| then Tally(processed, 0, false, [], 0)
    else
      match steps[k]
      case Stop => Tally(processed, 0, false, [], 1)
      case Retry(a) =>
        var t := AdmissionLoop(steps, k + 1, processed);
        t.(actions := a + t.actions, used := t.used + 1)
      case Resolved(a, acc, st) =>
        var t := AdmissionLoop(steps, k + 1, processed + 1);
        t.(accepted := t.accepted + (if acc then 1 else 0), stamped := st || t.stamped,
           actions := a + t.actions, used := t.used + 1)
  }

  /** The loop run on what the device shows. */
  function AdmissionOf(wl: seq<string>, frames: seq<Frame>): Tally {
    AdmissionLoop(Steps(wl, frames), 0, 0)
  }

  /** Number of resolved candidates among the steps. */
  function ResolvedCount(steps: seq<Step>): nat {
    if steps == [] then 0
    else (if steps[0].Resolved? then 1 else 0) + ResolvedCount(steps[1..])
  }

  /**
   * `processed` never exceeds five and grows by exactly one per resolved
   * candidate among the iterations run; `accepted` grows by at most as much.
   */
  lemma {:induction false} LoopCounts(steps: seq<Step>, k: nat, processed: nat)
    requires k <= |steps| && processed <= MaxProcessed
    ensures var t := AdmissionLoop(steps, k, processed);
      processed <= t.processed <= MaxProcessed &&
      k + t.used <= |steps| &&
      t.processed - processed == ResolvedCount(steps[k..k + t.used]) &&
      t.accepted <= t.processed - processed
    decreases |steps| - k
  {
    var t := AdmissionLoop(steps, k, processed);
    if processed < MaxProcessed && k < |steps| {
      var s := steps[k];
      if s.Stop? {
        assert steps[k..k + 1] == [s];
      } else {
        var next := if s.Resolved? then processed + 1 else processed;
        LoopCounts(steps, k + 1, next);
        var t' := AdmissionLoop(steps, k + 1, next);
        assert t.used == t'.used + 1;
        var run := steps[k..k + t.used];
        assert run[0] == s && run[1..] == steps[k + 1..k + 1 + t'.used];
      }
    } else {
      assert steps[k..k] == [];
    }
  }

  lemma {:induction false} LoopExit(steps: seq<Step>, k: nat, processed: nat)
    requires k <= |steps| && processed <= MaxProcessed
    ensures var t := AdmissionLoop(steps, k, processed);
      k + t.used <= |steps| &&
      (forall i :: k <= i < k + t.used - 1 ==> !steps[i].Stop?) &&
      (k + t.used < |steps| && t.processed < MaxProcessed ==> t.used > 0 && steps[k + t.used - 1].Stop?) &&
      (processed < t.processed == MaxProcessed ==> t.used > 0 && steps[k + t.used - 1].Resolved?)
    decreases |steps| - k
  {
    if processed < MaxProcessed && k < |steps| && !steps[k].Stop? {
      LoopExit(steps, k + 1, if steps[k].Resolved? then processed + 1 else processed);
    }
  }

  /**
   * The loop stops early only at a failed screenshot or an empty list of
   * accept controls: every iteration but the last found a candidate, and if
   * the script was not used up and fewer than five were resolved, the last
   * iteration found none. When five were resolved, the last iteration was the
   * fifth resolved candidate.
   */
  lemma AdmissionExit(wl: seq<string>, frames: seq<Frame>)
    ensures var t := AdmissionOf(wl, frames);
      t.used <= |frames| &&
      (forall i :: 0 <= i < t.used - 1 ==> Live(frames[i])) &&
      (t.used < |frames| && t.processed < MaxProcessed ==> t.used > 0 && !Live(frames[t.used - 1])) &&
      (t.processed == MaxProcessed ==> t.used > 0 && StepOf(wl, frames[t.used - 1]).Resolved?)
  {
    var steps := Steps(wl, frames);
    StepsAll(wl, frames);
    LoopExit(steps, 0, 0);
    var t := AdmissionOf(wl, frames);
    forall i | 0 <= i < t.used - 1 ensures Live(frames[i]) {
      StepAcceptPolicy(wl, frames[i]);
    }
    if t.used < |frames| && t.processed < MaxProcessed {
      StepAcceptPolicy(wl, frames[t.used - 1]);
    }
    if t.processed == MaxProcessed {
      StepsAt(wl, frames, t.used - 1);
    }
  }

  lemma {:induction false} LoopStamp(steps: seq<Step>, k: nat, processed: nat)
    requires k <= |steps| && processed <= MaxProcessed
    ensures var t := AdmissionLoop(steps, k, processed);
      k + t.used <= |steps| &&
      (t.stamped <==> exists i :: k <= i < k + t.used && steps[i].Resolved? && steps[i].stamp)
    decreases |steps| - k
  {
    if processed < MaxProcessed && k < |steps| && !steps[k].Stop? {
      LoopStamp(steps, k + 1, if steps[k].Resolved? then processed + 1 else processed);
    }
  }

  /**
   * The timer is set exactly when some iteration that ran resolved its
   * candidate with a stamp: an accept under an empty whitelist, or the
   * confirm-only fallback of a rejection.
   */
  lemma AdmissionStamp(wl: seq<string>, frames: seq<Frame>)
    ensures var t := AdmissionOf(wl, frames);
      t.used <= |frames| &&
      (t.stamped <==> exists i :: (0 <= i < t.used && Live(frames[i]) &&
        (|wl| == 0 || (Rejected(wl, frames[i]) && |frames[i].rejectMatches| == 0 && frames[i].confirmFound))))
  {
    var steps := Steps(wl, frames);
    StepsAll(wl, frames);
    LoopStamp(steps, 0, 0);
    forall i | 0 <= i < |frames| ensures
      (steps[i].Resolved? && steps[i].stamp) <==>
        Live(frames[i]) &&
        (|wl| == 0 || (Rejected(wl, frames[i]) && |frames[i].rejectMatches| == 0 && frames[i].confirmFound))
    {
      StepConfirmAndStamp(wl, frames[i]);
    }
  }

  lemma {:induction false} LoopOpenPolicy(steps: seq<Step>, k: nat, processed: nat)
    requires k <= |steps| && processed <= MaxProcessed
    requires forall i :: k <= i < |steps| ==>
      steps[i].Stop? || (steps[i].Resolved? && !steps[i].accepted && steps[i].stamp)
    ensures var t := AdmissionLoop(steps, k, processed);
      (t.stamped <==> t.processed > processed) && t.accepted == 0
    decreases |steps| - k
  {
    if processed < MaxProcessed && k < |steps| && !steps[k].Stop? {
      LoopOpenPolicy(steps, k + 1, processed + 1);
      LoopCounts(steps, k + 1, processed + 1);
    }
  }

  /**
   * With an empty whitelist every candidate is accepted: the timer is set
   * exactly when a candidate was processed, and the accepted counter never
   * moves (it counts only whitelisted accepts).
   */
  lemma AdmissionOpenPolicy(frames: seq<Frame>)
    ensures var t := AdmissionOf([], frames);
      (t.stamped <==> t.processed > 0) && t.accepted == 0
  {
    var steps := Steps([], frames);
    StepsAll([], frames);
    forall i | 0 <= i < |steps|
      ensures steps[i].Stop? || (steps[i].Resolved? && !steps[i].accepted && steps[i].stamp)
    {
      StepAcceptPolicy([], frames[i]);
    }
    LoopOpenPolicy(steps, 0, 0);
  }

  lemma {:induction false} LoopRetries(steps: seq<Step>, k: nat, processed: nat)
    requires k <= |steps| && processed < MaxProcessed
    requires forall i :: k <= i < |steps| ==> steps[i].Retry?
    ensures AdmissionLoop(steps, k, processed).processed == processed
    ensures AdmissionLoop(steps, k, processed).used == |steps| - k
    decreases |steps| - k
  {
    if k < |steps| {
      LoopRetries(steps, k + 1, processed);
    }
  }

  /**
   * The cap of five counts resolved candidates, not iterations: a candidate
   * whose confirm control is never found is retried for as long as the
   * device keeps showing it.
   */
  lemma RetriesAreNotCapped(wl: seq<string>, f: Frame, n: nat)
    requires StepOf(wl, f).Retry?
    ensures var t := AdmissionOf(wl, seq(n, _ => f));
      t.processed == 0 && t.used == n
  {
    var frames := seq(n, _ => f);
    StepsAll(wl, frames);
    LoopRetries(Steps(wl, frames), 0, 0);
  }

  /**
   * The answers of the device during one visit of a position: whether the
   * position icon was found (and tapped), whether the "list full" marker
   * shows, whether the list control was found (and tapped), the accept
   * matches found right after opening the list, the frames of the loop and
   * the anchor script of the final recovery.
   */
  datatype Visit = Visit(
    positionFound: bool,
    fullList: bool,
    listFound: bool,
    initialAccepts: seq<Point>,
    frames: seq<Frame>,
    anchor: seq<bool>)

  /** What a visit returns, whether it set the timer, and what it did. */
  datatype VisitResult = VisitResult(ok: bool, stamped: bool, trace: seq<Action>)

  /** `process_secretary_position` on a position, as a function of what the device shows. */
  function VisitOf(wl: seq<string>, name: Position, v: Visit): VisitResult {
    if !v.positionFound then VisitResult(true, false, [])
    else
      var rec := Recover(v.anchor);
      if v.fullList then VisitResult(rec.ok, false, [TapPosition(name)] + BackPresses(rec.presses))
      else if !v.listFound then VisitResult(false, false, [TapPosition(name)])
      else
        var entered := [TapPosition(name), TapList];
        if |v.initialAccepts| == 0 then VisitResult(rec.ok, false, entered + BackPresses(rec.presses))
        else
          var swipe := if |v.initialAccepts| > SwipeThreshold then [SwipeUp] else [];
          var t := AdmissionOf(wl, v.frames);
          VisitResult(rec.ok, t.stamped, entered + swipe + t.actions + BackPresses(rec.presses))
  }

  /**
   * A visit fails (aborting the cycle) only when the list control is missing
   * or recovery fails; a position that has vanished is skipped without
   * recovery; a full list is left through recovery without admitting anyone.
   */
  lemma VisitOutcome(wl: seq<string>, name: Position, v: Visit)
    ensures !VisitOf(wl, name, v).ok <==>
      v.positionFound && ((!v.fullList && !v.listFound) || ((v.fullList || v.listFound) && !Recover(v.anchor).ok))
    ensures VisitOf(wl, name, v).stamped <==>
      v.positionFound && !v.fullList && v.listFound && |v.initialAccepts| > 0 && AdmissionOf(wl, v.frames).stamped
    ensures !v.positionFound ==> VisitOf(wl, name, v).trace == []
  {
  }

  /**
   * `process_all_secretary_positions` over a non-empty list: visit the
   * positions in order, stopping at the first visit that returns false.
   */
  function AdmitAll(wl: seq<string>, names: seq<Position>, visits: Position -> Visit,
                    last: map<Position, nat>, now: nat): Sweep
    decreases |names|
  {
    if names == [] then Sweep(true, last, [])
    else
      var v := VisitOf(wl, names[0], visits(names[0]));
      var last' := if v.stamped then last[names[0] := now] else last;
      if !v.ok then Sweep(false, last', v.trace)
      else
        var rest := AdmitAll(wl, names[1..], visits, last', now);
        Sweep(rest.ok, rest.last, v.trace + rest.trace)
  }

  /** The visit of `names[i]` within the sweep from position `i`. */
  lemma AdmitAllAt(wl: seq<string>, names: seq<Position>, i: nat, visits: Position -> Visit,
                   last: map<Position, nat>, last': map<Position, nat>, now: nat, ok: bool, t: seq<Action>)
    requires i < |names|
    requires ok == VisitOf(wl, names[i], visits(names[i])).ok && t == VisitOf(wl, names[i], visits(names[i])).trace
    requires last' == if VisitOf(wl, names[i], visits(names[i])).stamped then last[names[i] := now] else last
    ensures !ok ==> AdmitAll(wl, names[i..], visits, last, now) == Sweep(false, last', t)
    ensures ok ==> (var next := AdmitAll(wl, names[i + 1..], visits, last', now);
      AdmitAll(wl, names[i..], visits, last, now) == Sweep(next.ok, next.last, t + next.trace))
  {
    assert names[i..][0] == names[i] && names[i..][1..] == names[i + 1..];
  }

  /**
   * The sweep succeeds exactly when every visit succeeds; only listed
   * positions can have their timer set, and a set timer reads `now`.
   */
  lemma {:induction false} AdmitAllMeaning(wl: seq<string>, names: seq<Position>, visits: Position -> Visit,
                                           last: map<Position, nat>, now: nat)
    ensures AdmitAll(wl, names, visits, last, now).ok <==>
      forall i :: 0 <= i < |names| ==> VisitOf(wl, names[i], visits(names[i])).ok
    ensures forall p :: p in last ==> p in AdmitAll(wl, names, visits, last, now).last
    ensures forall p :: p in AdmitAll(wl, names, visits, last, now).last ==> p in last || p in names
    ensures forall p :: p in last && p !in names ==> AdmitAll(wl, names, visits, last, now).last[p] == last[p]
    ensures forall p :: p in AdmitAll(wl, names, visits, last, now).last ==>
      (p in last && AdmitAll(wl, names, visits, last, now).last[p] == last[p]) ||
      AdmitAll(wl, names, visits, last, now).last[p] == now
    decreases |names|
  {
    if names != [] {
      var v := VisitOf(wl, names[0], visits(names[0]));
      var last' := if v.stamped then last[names[0] := now] else last;
      AdmitAllMeaning(wl, names[1..], visits, last', now);
      if v.ok {
        forall i | 0 <= i < |names| - 1 ensures names[1..][i] == names[i + 1] { }
        var s := AdmitAll(wl, names, visits, last, now);
        if !s.ok {
          var i :| 0 <= i < |names[1..]| && !VisitOf(wl, names[1..][i], visits(names[1..][i])).ok;
          assert names[i + 1] == names[1..][i];
        }
        if s.ok {
          forall i | 0 <= i < |names| ensures VisitOf(wl, names[i], visits(names[i])).ok {
            if i > 0 {
              assert names[i] == names[1..][i - 1];
            }
          }
        }
      }
    }
  }

  /**
   * The sweep stops at the first failing visit: the positions after it are
   * never visited, so the sweep equals the one over the list cut just after it.
   */
  lemma {:induction false} AdmitAllStopsAtFailure(wl: seq<string>, names: seq<Position>, i: nat,
                                                  visits: Position -> Visit, last: map<Position, nat>, now: nat)
    requires i < |names| && !VisitOf(wl, names[i], visits(names[i])).ok
    requires forall j :: 0 <= j < i ==> VisitOf(wl, names[j], visits(names[j])).ok
    ensures AdmitAll(wl, names, visits, last, now) == AdmitAll(wl, names[..i + 1], visits, last, now)
    decreases i
  {
    var cut := names[..i + 1];
    assert cut[0] == names[0];
    if i > 0 {
      var v := VisitOf(wl, names[0], visits(names[0]));
      var last' := if v.stamped then last[names[0] := now] else last;
      assert v.ok;
      forall j | 0 <= j < i - 1 ensures VisitOf(wl, names[1..][j], visits(names[1..][j])).ok {
        assert names[1..][j] == names[j + 1];
      }
      assert names[1..][i - 1] == names[i];
      AdmitAllStopsAtFailure(wl, names[1..], i - 1, visits, last', now);
      assert cut[1..] == names[1..][..i];
    }
  }

  /**
   * Within a sweep that reaches position j (every earlier visit succeeded),
   * its timer reads `now` when its visit stamps it and keeps its value
   * otherwise.
   */
  lemma {:induction false} AdmitAllTimerAt(wl: seq<string>, names: seq<Position>, j: nat,
                                           visits: Position -> Visit, last: map<Position, nat>, now: nat)
    requires InCatalogOrder(names) && j < |names| && names[j] in last
    requires forall i :: 0 <= i < j ==> VisitOf(wl, names[i], visits(names[i])).ok
    ensures names[j] in AdmitAll(wl, names, visits, last, now).last
    ensures AdmitAll(wl, names, visits, last, now).last[names[j]] ==
      if VisitOf(wl, names[j], visits(names[j])).stamped then now else last[names[j]]
    decreases j
  {
    var v := VisitOf(wl, names[0], visits(names[0]));
    var last' := if v.stamped then last[names[0] := now] else last;
    InCatalogOrderTail(names);
    if j == 0 {
      if v.ok {
        AdmitAllMeaning(wl, names[1..], visits, last', now);
      }
    } else {
      assert v.ok;
      assert names[1..][j - 1] == names[j];
      assert names[j] != names[0] by {
        assert Rank(names[0]) < Rank(names[j]);
      }
      forall i | 0 <= i < j - 1 ensures VisitOf(wl, names[1..][i], visits(names[1..][i])).ok {
        assert names[1..][i] == names[i + 1];
      }
      AdmitAllTimerAt(wl, names[1..], j - 1, visits, last', now);
    }
  }
}
