/**
 * Eviction of stale appointees: `find_positions_to_remove` picks the
 * positions whose configured cooldown has run out (resetting the timer of
 * those found vacant), and `process_remove_position` dismisses the appointee
 * of one of them. The only state is the map of last-approve times.
 *
 * `vacant` holds the positions whose "vacant" marker shows, `icons` those
 * whose icon shows, during the scan.
 */
module Eviction {
  import opened Types
  import opened Recovery

  /** The position has a delay configured, and it is not 0 (0 counts as unset). */
  predicate DelayConfigured(cfg: Option<AutoRemove>, p: Position) {
    cfg.Some? && p in cfg.value.titleCfg && cfg.value.titleCfg[p] != 0
  }

  /** The cooldown test: at least `delay` seconds since the last approve. */
  predicate CooldownOver(delay: int, last: nat, now: nat) {
    now - last >= delay
  }

  /** The position is due for an eviction check at time `now`. */
  predicate Due(cfg: Option<AutoRemove>, p: Position, last: map<Position, nat>, now: nat) {
    DelayConfigured(cfg, p) && p in last && CooldownOver(cfg.value.titleCfg[p], last[p], now)
  }

  /** The positions of `ps` listed for eviction, in order. */
  function ToRemove(cfg: Option<AutoRemove>, ps: seq<Position>, last: map<Position, nat>, now: nat,
                    vacant: set<Position>, icons: set<Position>): seq<Position>
  {
    if ps == [] then []
    else
      var p := ps[|ps| - 1];
      ToRemove(cfg, ps[..|ps| - 1], last, now, vacant, icons) +
        (if Due(cfg, p, last, now) && p !in vacant && p in icons then [p] else [])
  }

  /** The timers after the scan of `ps`: due and vacant positions restart at `now`. */
  function ScanTimers(cfg: Option<AutoRemove>, ps: seq<Position>, last: map<Position, nat>, now: nat,
                      vacant: set<Position>): map<Position, nat>
  {
    if ps == [] then last
    else
      var p := ps[|ps| - 1];
      var m := ScanTimers(cfg, ps[..|ps| - 1], last, now, vacant);
      if Due(cfg, p, last, now) && p in vacant then m[p := now] else m
  }

  lemma {:induction false} ToRemoveMembers(cfg: Option<AutoRemove>, ps: seq<Position>, last: map<Position, nat>,
                                           now: nat, vacant: set<Position>, icons: set<Position>)
    ensures forall p :: p in ToRemove(cfg, ps, last, now, vacant, icons) <==>
      p in ps && Due(cfg, p, last, now) && p !in vacant && p in icons
  {
    if ps != [] {
      var init := ps[..|ps| - 1];
      ToRemoveMembers(cfg, init, last, now, vacant, icons);
      assert ps == init + [ps[|ps| - 1]];
    }
  }

  lemma {:induction false} ToRemoveOrdered(cfg: Option<AutoRemove>, ps: seq<Position>, last: map<Position, nat>,
                                           now: nat, vacant: set<Position>, icons: set<Position>)
    requires InCatalogOrder(ps)
    ensures InCatalogOrder(ToRemove(cfg, ps, last, now, vacant, icons))
  {
    if ps != [] {
      var init := ps[..|ps| - 1];
      var p := ps[|ps| - 1];
      ToRemoveOrdered(cfg, init, last, now, vacant, icons);
      ToRemoveMembers(cfg, init, last, now, vacant, icons);
      var r := ToRemove(cfg, ps, last, now, vacant, icons);
      var ri := ToRemove(cfg, init, last, now, vacant, icons);
      assert r == ri + (if Due(cfg, p, last, now) && p !in vacant && p in icons then [p] else []);
      forall i, j | 0 <= i < j < |r| ensures Rank(r[i]) < Rank(r[j]) {
        if j >= |ri| {
          assert r[i] == ri[i] && r[i] in init;
          var k :| 0 <= k < |init| && init[k] == r[i];
          assert ps[k] == init[k];
        } else {
          assert r[i] == ri[i] && r[j] == ri[j];
          assert Rank(ri[i]) < Rank(ri[j]);
        }
      }
    }
  }

  lemma {:induction false} ScanTimersAt(cfg: Option<AutoRemove>, ps: seq<Position>, last: map<Position, nat>,
                                        now: nat, vacant: set<Position>)
    ensures ScanTimers(cfg, ps, last, now, vacant).Keys == last.Keys
    ensures forall p :: p in last ==>
      ScanTimers(cfg, ps, last, now, vacant)[p] ==
        if p in ps && Due(cfg, p, last, now) && p in vacant then now else last[p]
  {
    if ps != [] {
      var init := ps[..|ps| - 1];
      ScanTimersAt(cfg, init, last, now, vacant);
      assert ps == init + [ps[|ps| - 1]];
    }
  }

  /** The scan of catalog entry `k`, after the entries before it. */
  lemma ScanStep(cfg: Option<AutoRemove>, k: nat, last: map<Position, nat>, now: nat,
                 vacant: set<Position>, icons: set<Position>)
    requires k < |Catalog|
    ensures var p := Catalog[k];
      ToRemove(cfg, Catalog[..k + 1], last, now, vacant, icons) ==
        ToRemove(cfg, Catalog[..k], last, now, vacant, icons) +
          (if Due(cfg, p, last, now) && p !in vacant && p in icons then [p] else [])
    ensures var p := Catalog[k];
      var m := ScanTimers(cfg, Catalog[..k], last, now, vacant);
      ScanTimers(cfg, Catalog[..k + 1], last, now, vacant) ==
        (if Due(cfg, p, last, now) && p in vacant then m[p := now] else m)
  {
    assert Catalog[..k + 1][..k] == Catalog[..k];
    assert Catalog[..k + 1][k] == Catalog[k];
  }

  /** Entry `k`'s timer is still untouched when the scan reaches it. */
  lemma ScanNotYetAt(cfg: Option<AutoRemove>, k: nat, last: map<Position, nat>, now: nat, vacant: set<Position>)
    requires k < |Catalog| && Catalog[k] in last
    ensures var m := ScanTimers(cfg, Catalog[..k], last, now, vacant);
      Catalog[k] in m && m[Catalog[k]] == last[Catalog[k]]
  {
    ScanTimersAt(cfg, Catalog[..k], last, now, vacant);
    assert Catalog[k] !in Catalog[..k] by {
      var r := Rank(Catalog[k]);
      forall i | 0 <= i < k ensures Catalog[..k][i] != Catalog[k] {
        assert Catalog[..k][i] == Catalog[i];
      }
    }
  }

  /** The scan as a whole: what it lists, and the timers it leaves. */
  function Scan(cfg: Option<AutoRemove>, last: map<Position, nat>, now: nat,
                vacant: set<Position>, icons: set<Position>): (seq<Position>, map<Position, nat>)
  {
    (ToRemove(cfg, Catalog, last, now, vacant, icons), ScanTimers(cfg, Catalog, last, now, vacant))
  }

  /**
   * A position is listed exactly when its delay is configured (and not 0),
   * its cooldown is over, it is not vacant and its icon shows; listed
   * positions follow catalog order, each at most once. Exactly the due vacant
   * positions have their timer restarted.
   */
  lemma ScanMeaning(cfg: Option<AutoRemove>, last: map<Position, nat>, now: nat,
                    vacant: set<Position>, icons: set<Position>)
    ensures forall p :: p in Scan(cfg, last, now, vacant, icons).0 <==>
      Due(cfg, p, last, now) && p !in vacant && p in icons
    ensures InCatalogOrder(Scan(cfg, last, now, vacant, icons).0)
    ensures Scan(cfg, last, now, vacant, icons).1.Keys == last.Keys
    ensures forall p :: p in last ==>
      Scan(cfg, last, now, vacant, icons).1[p] == if Due(cfg, p, last, now) && p in vacant then now else last[p]
  {
    ToRemoveMembers(cfg, Catalog, last, now, vacant, icons);
    CatalogInCatalogOrder();
    ToRemoveOrdered(cfg, Catalog, last, now, vacant, icons);
    ScanTimersAt(cfg, Catalog, last, now, vacant);
    forall p: Position ensures p in Catalog {
      assert Catalog[Rank(p)] == p;
    }
  }

  /**
   * Without an `auto_remove` section, or with an empty `title_cfg`, nothing is
   * listed and no timer changes.
   */
  lemma ScanDisabled(cfg: Option<AutoRemove>, last: map<Position, nat>, now: nat,
                     vacant: set<Position>, icons: set<Position>)
    requires cfg.None? || cfg.value.titleCfg == map[]
    ensures Scan(cfg, last, now, vacant, icons) == ([], last)
  {
    NothingDueNothingListed(cfg, Catalog, last, now, vacant, icons);
    ScanTimersAt(cfg, Catalog, last, now, vacant);
    var m := ScanTimers(cfg, Catalog, last, now, vacant);
    assert m == last by {
      forall p | p in last ensures m[p] == last[p] {
        assert !Due(cfg, p, last, now);
      }
    }
  }

  lemma {:induction false} NothingDueNothingListed(cfg: Option<AutoRemove>, ps: seq<Position>, last: map<Position, nat>,
                                                   now: nat, vacant: set<Position>, icons: set<Position>)
    requires forall p :: p in ps ==> !Due(cfg, p, last, now)
    ensures ToRemove(cfg, ps, last, now, vacant, icons) == []
  {
    if ps != [] {
      NothingDueNothingListed(cfg, ps[..|ps| - 1], last, now, vacant, icons);
    }
  }

  /**
   * With delay `D` configured and the last approve `d` seconds ago, the
   * position is due exactly when `d >= D`.
   */
  lemma CooldownBoundary(cfg: Option<AutoRemove>, p: Position, last: map<Position, nat>, now: nat, d: nat)
    requires DelayConfigured(cfg, p) && p in last && last[p] + d == now
    ensures Due(cfg, p, last, now) <==> d >= cfg.value.titleCfg[p]
  {
  }

  /**
   * The answers of the device while evicting one position: its icon found
   * (and tapped), the "empty list" marker, the "appoint" marker, the dismiss
   * and blue confirm controls found (and tapped), and the anchor script of
   * the final recovery.
   */
  datatype RemoveVisit = RemoveVisit(
    positionFound: bool,
    queueEmpty: bool,
    appointShown: bool,
    dismissFound: bool,
    confirmBlueFound: bool,
    anchor: seq<bool>)

  datatype RemoveResult = RemoveResult(ok: bool, reset: bool, trace: seq<Action>)

  /** `process_remove_position` on a position, as a function of what the device shows. */
  function RemoveOf(name: Position, o: RemoveVisit): RemoveResult {
    if !o.positionFound then RemoveResult(true, false, [])
    else
      var rec := Recover(o.anchor);
      var tail := BackPresses(rec.presses);
      if !o.queueEmpty then RemoveResult(rec.ok, true, [TapPosition(name)] + tail)
      else if !o.appointShown then RemoveResult(rec.ok, true, [TapPosition(name)] + tail)
      else if !o.dismissFound then RemoveResult(rec.ok, false, [TapPosition(name)] + tail)
      else if !o.confirmBlueFound then RemoveResult(rec.ok, false, [TapPosition(name), TapDismiss] + tail)
      else RemoveResult(rec.ok, true, [TapPosition(name), TapDismiss, TapConfirmBlue] + tail)
  }

  /**
   * The timer restarts in exactly three cases: applicants still queued; no
   * appointee to dismiss; or both the dismiss and the blue confirm taps
   * succeeded. The appointee is dismissed only when the queue is empty and the
   * "appoint" marker shows. A vanished position is skipped without recovery;
   * otherwise the result is that of recovery.
   */
  lemma RemoveMeaning(name: Position, o: RemoveVisit)
    ensures RemoveOf(name, o).reset <==>
      o.positionFound &&
      (!o.queueEmpty || (o.queueEmpty && !o.appointShown) || (o.appointShown && o.dismissFound && o.confirmBlueFound))
    ensures TapConfirmBlue in RemoveOf(name, o).trace <==>
      o.positionFound && o.queueEmpty && o.appointShown && o.dismissFound && o.confirmBlueFound
    ensures TapDismiss in RemoveOf(name, o).trace <==>
      o.positionFound && o.queueEmpty && o.appointShown && o.dismissFound
    ensures !o.positionFound ==> RemoveOf(name, o) == RemoveResult(true, false, [])
    ensures o.positionFound ==> RemoveOf(name, o).ok == Recover(o.anchor).ok
  {
    var rec := Recover(o.anchor);
    assert forall i :: 0 <= i < |BackPresses(rec.presses)| ==> BackPresses(rec.presses)[i] == Back;
  }

  /**
   * `process_all_auto_remove_positions` after the scan: evict the listed
   * positions in order, stopping at the first that returns false.
   */
  function RemoveAll(names: seq<Position>, obs: Position -> RemoveVisit, last: map<Position, nat>, now: nat): Sweep
    decreases |names|
  {
    if names == [] then Sweep(true, last, [])
    else
      var r := RemoveOf(names[0], obs(names[0]));
      var last' := if r.reset then last[names[0] := now] else last;
      if !r.ok then Sweep(false, last', r.trace)
      else
        var rest := RemoveAll(names[1..], obs, last', now);
        Sweep(rest.ok, rest.last, r.trace + rest.trace)
  }

  /** The eviction of `names[i]` within the sweep from position `i`. */
  lemma RemoveAllAt(names: seq<Position>, i: nat, obs: Position -> RemoveVisit, last: map<Position, nat>,
                    last': map<Position, nat>, now: nat, ok: bool, t: seq<Action>)
    requires i < |names|
    requires ok == RemoveOf(names[i], obs(names[i])).ok && t == RemoveOf(names[i], obs(names[i])).trace
    requires last' == if RemoveOf(names[i], obs(names[i])).reset then last[names[i] := now] else last
    ensures !ok ==> RemoveAll(names[i..], obs, last, now) == Sweep(false, last', t)
    ensures ok ==> (var next := RemoveAll(names[i + 1..], obs, last', now);
      RemoveAll(names[i..], obs, last, now) == Sweep(next.ok, next.last, t + next.trace))
  {
    assert names[i..][0] == names[i] && names[i..][1..] == names[i + 1..];
  }

  /**
   * The sweep succeeds exactly when every eviction succeeds; it touches only
   * the timers of listed positions, and a touched timer reads `now`.
   */
  lemma {:induction false} RemoveAllMeaning(names: seq<Position>, obs: Position -> RemoveVisit,
                                            last: map<Position, nat>, now: nat)
    ensures RemoveAll(names, obs, last, now).ok <==>
      forall i :: 0 <= i < |names| ==> RemoveOf(names[i], obs(names[i])).ok
    ensures forall p :: p in last ==> p in RemoveAll(names, obs, last, now).last
    ensures forall p :: p in RemoveAll(names, obs, last, now).last ==> p in last || p in names
    ensures forall p :: p in last && p !in names ==> RemoveAll(names, obs, last, now).last[p] == last[p]
    ensures forall p :: p in RemoveAll(names, obs, last, now).last ==>
      (p in last && RemoveAll(names, obs, last, now).last[p] == last[p]) ||
      RemoveAll(names, obs, last, now).last[p] == now
    decreases |names|
  {
    if names != [] {
      var r := RemoveOf(names[0], obs(names[0]));
      var last' := if r.reset then last[names[0] := now] else last;
      RemoveAllMeaning(names[1..], obs, last', now);
      if r.ok {
        var s := RemoveAll(names, obs, last, now);
        if !s.ok {
          var i :| 0 <= i < |names[1..]| && !RemoveOf(names[1..][i], obs(names[1..][i])).ok;
          assert names[i + 1] == names[1..][i];
        }
        if s.ok {
          forall i | 0 <= i < |names| ensures RemoveOf(names[i], obs(names[i])).ok {
            if i > 0 {
              assert names[i] == names[1..][i - 1];
            }
          }
        }
      }
    }
  }

  /**
   * The sweep stops at the first failing eviction: the positions after it are
   * never visited, so the sweep equals the one over the list cut just after it.
   */
  lemma {:induction false} RemoveAllStopsAtFailure(names: seq<Position>, i: nat, obs: Position -> RemoveVisit,
                                                   last: map<Position, nat>, now: nat)
    requires i < |names| && !RemoveOf(names[i], obs(names[i])).ok
    requires forall j :: 0 <= j < i ==> RemoveOf(names[j], obs(names[j])).ok
    ensures RemoveAll(names, obs, last, now) == RemoveAll(names[..i + 1], obs, last, now)
    decreases i
  {
    var cut := names[..i + 1];
    assert cut[0] == names[0];
    if i > 0 {
      var r := RemoveOf(names[0], obs(names[0]));
      var last' := if r.reset then last[names[0] := now] else last;
      assert r.ok;
      forall j | 0 <= j < i - 1 ensures RemoveOf(names[1..][j], obs(names[1..][j])).ok {
        assert names[1..][j] == names[j + 1];
      }
      assert names[1..][i - 1] == names[i];
      RemoveAllStopsAtFailure(names[1..], i - 1, obs, last', now);
      assert cut[1..] == names[1..][..i];
    }
  }

  /**
   * Within a sweep that reaches position j (every earlier eviction
   * succeeded), its timer reads `now` when its eviction resets it and keeps
   * its value otherwise.
   */
  lemma {:induction false} RemoveAllTimerAt(names: seq<Position>, j: nat, obs: Position -> RemoveVisit,
                                            last: map<Position, nat>, now: nat)
    requires InCatalogOrder(names) && j < |names| && names[j] in last
    requires forall i :: 0 <= i < j ==> RemoveOf(names[i], obs(names[i])).ok
    ensures names[j] in RemoveAll(names, obs, last, now).last
    ensures RemoveAll(names, obs, last, now).last[names[j]] ==
      if RemoveOf(names[j], obs(names[j])).reset then now else last[names[j]]
    decreases j
  {
    var r := RemoveOf(names[0], obs(names[0]));
    var last' := if r.reset then last[names[0] := now] else last;
    InCatalogOrderTail(names);
    if j == 0 {
      if r.ok {
        RemoveAllMeaning(names[1..], obs, last', now);
      }
    } else {
      assert r.ok;
      assert names[1..][j - 1] == names[j];
      assert names[j] != names[0] by {
        assert Rank(names[0]) < Rank(names[j]);
      }
      forall i | 0 <= i < j - 1 ensures RemoveOf(names[1..][i], obs(names[1..][i])).ok {
        assert names[1..][i] == names[i + 1];
      }
      RemoveAllTimerAt(names[1..], j - 1, obs, last', now);
    }
  }

  /** The whole eviction pass: the scan, then the sweep over what it listed. */
  function EvictAll(cfg: Option<AutoRemove>, last: map<Position, nat>, now: nat,
                    vacant: set<Position>, icons: set<Position>, obs: Position -> RemoveVisit): Sweep
  {
    var (listed, scanned) := Scan(cfg, last, now, vacant, icons);
    RemoveAll(listed, obs, scanned, now)
  }

  /**
   * After an eviction pass every timer either keeps its value or reads `now`,
   * and the timer of a position that was not due keeps its value.
   */
  lemma EvictAllTimers(cfg: Option<AutoRemove>, last: map<Position, nat>, now: nat,
                       vacant: set<Position>, icons: set<Position>, obs: Position -> RemoveVisit)
    ensures var s := EvictAll(cfg, last, now, vacant, icons, obs);
      s.last.Keys == last.Keys &&
      (forall p :: p in last ==> s.last[p] == last[p] || s.last[p] == now) &&
      (forall p :: p in last && !Due(cfg, p, last, now) ==> s.last[p] == last[p])
  {
    var (listed, scanned) := Scan(cfg, last, now, vacant, icons);
    ScanMeaning(cfg, last, now, vacant, icons);
    RemoveAllMeaning(listed, obs, scanned, now);
    var s := EvictAll(cfg, last, now, vacant, icons, obs);
    forall p | p in listed ensures p in last {
    }
  }
}
