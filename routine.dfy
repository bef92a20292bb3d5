/**
 * `SecretaryRoutine`: the object that owns the last-approve times and runs a
 * cycle — evictions first (when `auto_remove` is active), then admission on
 * every position that carries an applicant.
 *
 * Every method takes the current time `now` and, as values, the answers the
 * device and the vision calls give it.
 */
module Routine {
  import opened Types
  import opened Buttons
  import opened Recovery
  import opened Applicants
  import opened Admission
  import opened Eviction

  /** The sanity probe: the first core position found (and tapped), then its list control. */
  datatype Probe = Probe(firstPositionFound: bool, listShown: bool)

  /**
   * The result of a cycle: a boolean, or the `RuntimeError` raised when the
   * secretary screen cannot be reached although no position has applicants.
   */
  datatype Outcome = Finished(ok: bool) | SecretaryNotAccessible

  /** What the device shows during one cycle. */
  datatype Device = Device(
    capitolFound: bool,
    vacant: set<Position>,
    removalIcons: set<Position>,
    removals: Position -> RemoveVisit,
    icons: Position -> seq<Point>,
    badges: seq<Point>,
    visits: Position -> Visit,
    probe: Probe)

  datatype CycleResult = CycleResult(outcome: Outcome, last: map<Position, nat>, trace: seq<Action>)

  /** `process_all_secretary_positions`. */
  function AdmissionPass(cfg: Config, d: Device, last: map<Position, nat>, now: nat): CycleResult {
    var positions := ApplicantPositions(d.icons, d.badges, ApplicantOffset(cfg));
    if positions == [] then
      if !d.probe.firstPositionFound then CycleResult(SecretaryNotAccessible, last, [])
      else if !d.probe.listShown then CycleResult(SecretaryNotAccessible, last, [TapPosition(SecretaryTypes[0])])
      else CycleResult(Finished(true), last, [TapPosition(SecretaryTypes[0])])
    else
      var s := AdmitAll(cfg.whitelist, positions, d.visits, last, now);
      CycleResult(Finished(s.ok), s.last, s.trace)
  }

  predicate EvictionEnabled(cfg: Config) {
    cfg.autoRemove.Some? && cfg.autoRemove.value.active
  }

  /** `_execute_internal`: one cycle. */
  function CycleOf(cfg: Config, d: Device, last: map<Position, nat>, now: nat): CycleResult {
    if !d.capitolFound then CycleResult(Finished(false), last, [OpenProfileMenu])
    else
      var e := if EvictionEnabled(cfg)
        then EvictAll(cfg.autoRemove, last, now, d.vacant, d.removalIcons, d.removals)
        else Sweep(true, last, []);
      var a := AdmissionPass(cfg, d, e.last, now);
      CycleResult(a.outcome, a.last, [OpenProfileMenu, TapCapitol, SwipeDown] + e.trace + a.trace)
  }

  /**
   * A cycle raises exactly when the capitol menu was reached, no position has
   * an applicant, and the probe of the first core position fails. It returns
   * false exactly when the capitol menu is missing or some visit of a position
   * with applicants fails. Evictions never decide the result: the cycle ends
   * the same with `auto_remove` switched off.
   */
  lemma CycleOutcome(cfg: Config, d: Device, last: map<Position, nat>, now: nat)
    ensures var positions := ApplicantPositions(d.icons, d.badges, ApplicantOffset(cfg));
      (CycleOf(cfg, d, last, now).outcome == SecretaryNotAccessible <==>
        d.capitolFound && positions == [] && !(d.probe.firstPositionFound && d.probe.listShown)) &&
      (CycleOf(cfg, d, last, now).outcome == Finished(false) <==>
        !d.capitolFound ||
        exists i :: 0 <= i < |positions| && !VisitOf(cfg.whitelist, positions[i], d.visits(positions[i])).ok)
    ensures CycleOf(cfg, d, last, now).outcome == CycleOf(cfg.(autoRemove := None), d, last, now).outcome
  {
    var positions := ApplicantPositions(d.icons, d.badges, ApplicantOffset(cfg));
    var e := if EvictionEnabled(cfg)
      then EvictAll(cfg.autoRemove, last, now, d.vacant, d.removalIcons, d.removals)
      else Sweep(true, last, []);
    AdmitAllMeaning(cfg.whitelist, positions, d.visits, e.last, now);
    AdmitAllMeaning(cfg.whitelist, positions, d.visits, last, now);
  }

  /**
   * Over a cycle every last-approve time either keeps its value or becomes
   * `now`; none is lost. So when the times never lie in the future, they
   * never move backwards.
   */
  lemma CycleTimers(cfg: Config, d: Device, last: map<Position, nat>, now: nat)
    requires forall p: Position :: p in last
    ensures var r := CycleOf(cfg, d, last, now);
      forall p: Position :: p in r.last && (r.last[p] == last[p] || r.last[p] == now)
    ensures (forall p: Position :: last[p] <= now) ==>
      var r := CycleOf(cfg, d, last, now);
      forall p: Position :: p in r.last && last[p] <= r.last[p] <= now
  {
    if d.capitolFound {
      var positions := ApplicantPositions(d.icons, d.badges, ApplicantOffset(cfg));
      var e := if EvictionEnabled(cfg)
        then EvictAll(cfg.autoRemove, last, now, d.vacant, d.removalIcons, d.removals)
        else Sweep(true, last, []);
      if EvictionEnabled(cfg) {
        EvictAllTimers(cfg.autoRemove, last, now, d.vacant, d.removalIcons, d.removals);
      }
      AdmitAllMeaning(cfg.whitelist, positions, d.visits, e.last, now);
    }
  }

  class SecretaryRoutine {
    /** The time of the last approve (or eviction, or reset) of each position. */
    var lastApprove: map<Position, nat>

    ghost predicate Valid()
      reads this
    {
      forall p: Position :: p in lastApprove
    }

    /** Every position starts with its timer at the creation time. */
    constructor (now: nat)
      ensures Valid()
      ensures forall p: Position :: lastApprove[p] == now
    {
      lastApprove := map p | p in Catalog :: now;
      new;
      forall p: Position ensures p in lastApprove {
        assert Catalog[Rank(p)] == p;
      }
    }

    /** `process_secretary_position`. */
    method ProcessSecretaryPosition(wl: seq<string>, name: Position, v: Visit, now: nat)
      returns (ok: bool, trace: seq<Action>)
      requires Valid()
      modifies this
      ensures Valid()
      ensures ok == VisitOf(wl, name, v).ok && trace == VisitOf(wl, name, v).trace
      ensures lastApprove == if VisitOf(wl, name, v).stamped then old(lastApprove)[name := now] else old(lastApprove)
    {
      ghost var r := VisitOf(wl, name, v);
      if !v.positionFound {
        return true, [];
      }
      trace := [TapPosition(name)];
      if v.fullList {
        var recovered, presses := ExitToSecretaryMenu(v.anchor);
        assert r == VisitResult(recovered, false, trace + BackPresses(presses));
        return recovered, trace + BackPresses(presses);
      }
      if !v.listFound {
        return false, trace;
      }
      trace := trace + [TapList];

      var acceptLocations := FindButtons(v.initialAccepts);
      TopmostButton(v.initialAccepts);
      ghost var stamped := false;
      if |acceptLocations| > 0 {
        if |acceptLocations| > SwipeThreshold {
          trace := trace + [SwipeUp];
        }
        var actions := AdmitCandidates(wl, name, v.frames, now);
        trace := trace + actions;
        stamped := AdmissionOf(wl, v.frames).stamped;
      }
      assert lastApprove == if stamped then old(lastApprove)[name := now] else old(lastApprove);

      var recovered, presses := ExitToSecretaryMenu(v.anchor);
      ok := recovered;
      trace := trace + BackPresses(presses);
      assert r == VisitResult(ok, stamped, trace);
    }

    /**
     * The admission loop of `process_secretary_position`: up to five
     * candidates are resolved; a candidate whose confirm dialog did not show
     * is retried without being counted.
     */
    method AdmitCandidates(wl: seq<string>, name: Position, frames: seq<Frame>, now: nat)
      returns (actions: seq<Action>)
      requires Valid()
      modifies this
      ensures Valid()
      ensures actions == AdmissionOf(wl, frames).actions
      ensures lastApprove == if AdmissionOf(wl, frames).stamped then old(lastApprove)[name := now] else old(lastApprove)
    {
      ghost var steps := Steps(wl, frames);
      ghost var total := AdmissionLoop(steps, 0, 0);
      ghost var stamped := false;
      actions := [];
      var processed, accepted := 0, 0;
      var k := 0;
      while processed < MaxProcessed
        invariant 0 <= k <= |frames| == |steps| && processed <= MaxProcessed
        invariant lastApprove == if stamped then old(lastApprove)[name := now] else old(lastApprove)
        invariant var rest := AdmissionLoop(steps, k, processed);
          total.accepted == accepted + rest.accepted &&
          total.stamped == (stamped || rest.stamped) &&
          total.actions == actions + rest.actions
        decreases |frames| - k
      {
        // Past the end of the script the screenshot fails.
        if k == |frames| {
          break;
        }
        var f := frames[k];
        // The body: screenshot, topmost accept control, then accept or reject.
        var step := StepOf(wl, f);
        assert step == steps[k] by {
          StepsAt(wl, frames, k);
        }
        if step.Stop? {
          break;
        }
        ghost var next := AdmissionLoop(steps, k + 1, if step.Retry? then processed else processed + 1);
        assert total.actions == (actions + step.actions) + next.actions by {
          assert actions + (step.actions + next.actions) == (actions + step.actions) + next.actions;
        }
        actions := actions + step.actions;
        if step.Resolved? && step.accepted {
          accepted := accepted + 1;
        }
        if step.Resolved? && step.stamp {
          lastApprove := lastApprove[name := now];
          stamped := true;
        }
        k := k + 1;
        if step.Retry? {
          continue;
        }
        processed := processed + 1;
      }
      assert actions + [] == actions;
    }

    /** `process_remove_position`. */
    method ProcessRemovePosition(name: Position, o: RemoveVisit, now: nat)
      returns (ok: bool, trace: seq<Action>)
      requires Valid()
      modifies this
      ensures Valid()
      ensures ok == RemoveOf(name, o).ok && trace == RemoveOf(name, o).trace
      ensures lastApprove == if RemoveOf(name, o).reset then old(lastApprove)[name := now] else old(lastApprove)
    {
      if !o.positionFound {
        return true, [];
      }
      trace := [TapPosition(name)];
      if !o.queueEmpty {
        // Applicants still queued: admission comes first.
        lastApprove := lastApprove[name := now];
      } else if o.appointShown {
        if o.dismissFound {
          trace := trace + [TapDismiss];
          if o.confirmBlueFound {
            trace := trace + [TapConfirmBlue];
            lastApprove := lastApprove[name := now];
          }
        }
      } else {
        lastApprove := lastApprove[name := now];
      }
      var recovered, presses := ExitToSecretaryMenu(o.anchor);
      ok := recovered;
      trace := trace + BackPresses(presses);
    }

    /** `find_positions_to_remove`. */
    method FindPositionsToRemove(cfg: Option<AutoRemove>, now: nat, vacant: set<Position>, icons: set<Position>)
      returns (positions: seq<Position>)
      requires Valid()
      modifies this
      ensures Valid()
      ensures (positions, lastApprove) == Scan(cfg, old(lastApprove), now, vacant, icons)
    {
      positions := [];
      if cfg.None? {
        ScanDisabled(cfg, lastApprove, now, vacant, icons);
        return;
      }
      var titleCfg := cfg.value.titleCfg;
      if titleCfg == map[] {
        ScanDisabled(cfg, lastApprove, now, vacant, icons);
        return;
      }
      for k := 0 to |Catalog|
        invariant Valid()
        invariant positions == ToRemove(cfg, Catalog[..k], old(lastApprove), now, vacant, icons)
        invariant lastApprove == ScanTimers(cfg, Catalog[..k], old(lastApprove), now, vacant)
      {
        var p := Catalog[k];
        ScanStep(cfg, k, old(lastApprove), now, vacant, icons);
        ScanNotYetAt(cfg, k, old(lastApprove), now, vacant);
        if p !in titleCfg || titleCfg[p] == 0 {
          continue;
        }
        var delay := titleCfg[p];
        if now - lastApprove[p] < delay {
          continue;
        }
        if p in vacant {
          lastApprove := lastApprove[p := now];
          continue;
        }
        if p in icons {
          positions := positions + [p];
        }
      }
      assert Catalog[..|Catalog|] == Catalog;
    }

    /** `process_all_auto_remove_positions`. */
    method ProcessAllAutoRemovePositions(cfg: Option<AutoRemove>, now: nat, vacant: set<Position>,
                                         icons: set<Position>, obs: Position -> RemoveVisit)
      returns (ok: bool, trace: seq<Action>)
      requires Valid()
      modifies this
      ensures Valid()
      ensures Sweep(ok, lastApprove, trace) == EvictAll(cfg, old(lastApprove), now, vacant, icons, obs)
    {
      var positions := FindPositionsToRemove(cfg, now, vacant, icons);
      ok, trace := RemoveListed(positions, obs, now);
    }

    /** The loop of `process_all_auto_remove_positions` over the listed positions. */
    method RemoveListed(positions: seq<Position>, obs: Position -> RemoveVisit, now: nat)
      returns (ok: bool, trace: seq<Action>)
      requires Valid()
      modifies this
      ensures Valid()
      ensures Sweep(ok, lastApprove, trace) == RemoveAll(positions, obs, old(lastApprove), now)
    {
      ghost var whole := RemoveAll(positions, obs, lastApprove, now);
      ghost var rest := whole;
      trace := [];
      for i := 0 to |positions|
        invariant Valid()
        invariant rest == RemoveAll(positions[i..], obs, lastApprove, now)
        invariant whole.ok == rest.ok && whole.last == rest.last && whole.trace == trace + rest.trace
      {
        ghost var before := lastApprove;
        var done, t := ProcessRemovePosition(positions[i], obs(positions[i]), now);
        ghost var next := RemoveAll(positions[i + 1..], obs, lastApprove, now);
        assert rest == if done then Sweep(next.ok, next.last, t + next.trace) else Sweep(false, lastApprove, t) by {
          RemoveAllAt(positions, i, obs, before, lastApprove, now, done, t);
        }
        if !done {
          return false, trace + t;
        }
        rest := next;
        assert whole.trace == (trace + t) + rest.trace by {
          assert trace + (t + rest.trace) == (trace + t) + rest.trace;
        }
        trace := trace + t;
      }
      assert positions[|positions|..] == [];
      assert trace + [] == trace;
      ok := true;
    }

    /** `process_all_secretary_positions`. */
    method ProcessAllSecretaryPositions(cfg: Config, d: Device, now: nat)
      returns (outcome: Outcome, trace: seq<Action>)
      requires Valid()
      modifies this
      ensures Valid()
      ensures CycleResult(outcome, lastApprove, trace) == AdmissionPass(cfg, d, old(lastApprove), now)
    {
      var positions := FindPositionsWithApplicants(d.icons, d.badges, ApplicantOffset(cfg));
      if |positions| == 0 {
        // Make sure the secretary screen is still reachable.
        if !d.probe.firstPositionFound {
          return SecretaryNotAccessible, [];
        }
        trace := [TapPosition(SecretaryTypes[0])];
        if !d.probe.listShown {
          return SecretaryNotAccessible, trace;
        }
        return Finished(true), trace;
      }
      outcome, trace := VisitAll(cfg.whitelist, positions, d.visits, now);
    }

    /** The loop of `process_all_secretary_positions` over the listed positions. */
    method VisitAll(wl: seq<string>, positions: seq<Position>, visits: Position -> Visit, now: nat)
      returns (outcome: Outcome, trace: seq<Action>)
      requires Valid()
      modifies this
      ensures Valid()
      ensures var s := AdmitAll(wl, positions, visits, old(lastApprove), now);
        outcome == Finished(s.ok) && lastApprove == s.last && trace == s.trace
    {
      ghost var whole := AdmitAll(wl, positions, visits, lastApprove, now);
      ghost var rest := whole;
      trace := [];
      for i := 0 to |positions|
        invariant Valid()
        invariant rest == AdmitAll(wl, positions[i..], visits, lastApprove, now)
        invariant whole.ok == rest.ok && whole.last == rest.last && whole.trace == trace + rest.trace
      {
        ghost var before := lastApprove;
        var done, t := ProcessSecretaryPosition(wl, positions[i], visits(positions[i]), now);
        ghost var next := AdmitAll(wl, positions[i + 1..], visits, lastApprove, now);
        assert rest == if done then Sweep(next.ok, next.last, t + next.trace) else Sweep(false, lastApprove, t) by {
          AdmitAllAt(wl, positions, i, visits, before, lastApprove, now, done, t);
        }
        if !done {
          return Finished(false), trace + t;
        }
        rest := next;
        assert whole.trace == (trace + t) + rest.trace by {
          assert trace + (t + rest.trace) == (trace + t) + rest.trace;
        }
        trace := trace + t;
      }
      assert positions[|positions|..] == [];
      assert trace + [] == trace;
      outcome := Finished(true);
    }

    /** `_execute_internal`: evictions first, then admission. */
    method ExecuteInternal(cfg: Config, d: Device, now: nat)
      returns (outcome: Outcome, trace: seq<Action>)
      requires Valid()
      modifies this
      ensures Valid()
      ensures CycleResult(outcome, lastApprove, trace) == CycleOf(cfg, d, old(lastApprove), now)
    {
      // The result of opening the profile menu is not looked at.
      trace := [OpenProfileMenu];
      if !d.capitolFound {
        return Finished(false), trace;
      }
      trace := trace + [TapCapitol, SwipeDown];
      if cfg.autoRemove.Some? && cfg.autoRemove.value.active {
        // The result of the eviction pass is not looked at either.
        var _, evictions := ProcessAllAutoRemovePositions(cfg.autoRemove, now, d.vacant, d.removalIcons, d.removals);
        trace := trace + evictions;
      }
      var admissions;
      outcome, admissions := ProcessAllSecretaryPositions(cfg, d, now);
      trace := trace + admissions;
    }
  }
}
