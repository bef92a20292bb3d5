/**
 * `find_positions_with_applicants`: which positions carry a "has applicant"
 * badge. Each position's icon is located (first match of its template), every
 * badge is located, and a position is reported when some badge lies inside
 * the inclusive proximity box around its icon.
 *
 * `icons(p)` is what the matcher returns for position p's template and
 * `badges` what it returns for the badge template.
 */
module Applicants {
  import opened Types

  /** The inclusive proximity test. */
  predicate Near(badge: Point, icon: Point, off: Offset) {
    Abs(badge.x - icon.x) <= off.x && Abs(badge.y - icon.y) <= off.y
  }

  predicate HasApplicant(icon: Point, badges: seq<Point>, off: Offset) {
    exists b :: b in badges && Near(b, icon, off)
  }

  /** The positions of `ps` whose icon was found, with their first match, in order. */
  function Located(ps: seq<Position>, icons: Position -> seq<Point>): seq<(Position, Point)> {
    if ps == [] then []
    else
      var p := ps[|ps| - 1];
      Located(ps[..|ps| - 1], icons) + (if |icons(p)| > 0 then [(p, icons(p)[0])] else [])
  }

  /** The located positions with a badge nearby, in order. */
  function WithApplicant(located: seq<(Position, Point)>, badges: seq<Point>, off: Offset): seq<Position> {
    if located == [] then []
    else
      var e := located[|located| - 1];
      WithApplicant(located[..|located| - 1], badges, off) +
        (if HasApplicant(e.1, badges, off) then [e.0] else [])
  }

  /** The specification of the scan. */
  function ApplicantPositions(icons: Position -> seq<Point>, badges: seq<Point>, off: Offset): seq<Position> {
    WithApplicant(Located(Catalog, icons), badges, off)
  }

  lemma {:induction false} LocatedMembers(ps: seq<Position>, icons: Position -> seq<Point>)
    ensures forall e :: e in Located(ps, icons) <==> e.0 in ps && |icons(e.0)| > 0 && e.1 == icons(e.0)[0]
  {
    if ps != [] {
      var init := ps[..|ps| - 1];
      LocatedMembers(init, icons);
      assert ps == init + [ps[|ps| - 1]];
    }
  }

  predicate LocatedInCatalogOrder(l: seq<(Position, Point)>) {
    forall i, j :: 0 <= i < j < |l| ==> Rank(l[i].0) < Rank(l[j].0)
  }

  /** Located entries keep the order of `ps`. */
  lemma {:induction false} LocatedOrdered(ps: seq<Position>, icons: Position -> seq<Point>)
    requires InCatalogOrder(ps)
    ensures LocatedInCatalogOrder(Located(ps, icons))
  {
    if ps != [] {
      var init := ps[..|ps| - 1];
      var last := ps[|ps| - 1];
      LocatedOrdered(init, icons);
      LocatedMembers(init, icons);
      var l := Located(ps, icons);
      var li := Located(init, icons);
      assert l == li + (if |icons(last)| > 0 then [(last, icons(last)[0])] else []);
      forall i, j | 0 <= i < j < |l| ensures Rank(l[i].0) < Rank(l[j].0) {
        if j >= |li| {
          assert l[j].0 == last;
          assert l[i] == li[i] && l[i] in li;
          assert l[i].0 in init;
          var k :| 0 <= k < |init| && init[k] == l[i].0;
          assert ps[k] == init[k];
        } else {
          assert l[i] == li[i] && l[j] == li[j];
          assert Rank(li[i].0) < Rank(li[j].0);
        }
      }
    }
  }

  lemma {:induction false} WithApplicantMembers(located: seq<(Position, Point)>, badges: seq<Point>, off: Offset)
    ensures forall p :: p in WithApplicant(located, badges, off) <==>
      exists e :: e in located && e.0 == p && HasApplicant(e.1, badges, off)
  {
    if located != [] {
      var init := located[..|located| - 1];
      WithApplicantMembers(init, badges, off);
      assert located == init + [located[|located| - 1]];
    }
  }

  lemma {:induction false} WithApplicantOrdered(located: seq<(Position, Point)>, badges: seq<Point>, off: Offset)
    requires LocatedInCatalogOrder(located)
    ensures InCatalogOrder(WithApplicant(located, badges, off))
  {
    if located != [] {
      var init := located[..|located| - 1];
      var last := located[|located| - 1];
      WithApplicantOrdered(init, badges, off);
      WithApplicantMembers(init, badges, off);
      var r := WithApplicant(located, badges, off);
      var ri := WithApplicant(init, badges, off);
      assert r == ri + (if HasApplicant(last.1, badges, off) then [last.0] else []);
      forall i, j | 0 <= i < j < |r| ensures Rank(r[i]) < Rank(r[j]) {
        if j >= |ri| {
          assert r[j] == last.0;
          assert r[i] == ri[i] && r[i] in ri;
          var e :| e in init && e.0 == r[i] && HasApplicant(e.1, badges, off);
          var k :| 0 <= k < |init| && init[k] == e;
          assert located[k] == init[k];
        } else {
          assert r[i] == ri[i] && r[j] == ri[j];
          assert Rank(ri[i]) < Rank(ri[j]);
        }
      }
    }
  }

  lemma {:induction false} NoBadgesNoneReported(located: seq<(Position, Point)>, off: Offset)
    ensures WithApplicant(located, [], off) == []
  {
    if located != [] {
      NoBadgesNoneReported(located[..|located| - 1], off);
    }
  }

  /**
   * A position is reported exactly when its icon was found and some badge lies
   * within the box `|dx| <= off.x`, `|dy| <= off.y` around the icon's first
   * match; the report follows catalog order and names each position at most
   * once; no badge means no position.
   */
  lemma ApplicantPositionsMeaning(icons: Position -> seq<Point>, badges: seq<Point>, off: Offset)
    ensures forall p :: p in ApplicantPositions(icons, badges, off) <==>
      |icons(p)| > 0 && HasApplicant(icons(p)[0], badges, off)
    ensures InCatalogOrder(ApplicantPositions(icons, badges, off))
    ensures badges == [] ==> ApplicantPositions(icons, badges, off) == []
  {
    var l := Located(Catalog, icons);
    LocatedMembers(Catalog, icons);
    WithApplicantMembers(l, badges, off);
    CatalogInCatalogOrder();
    LocatedOrdered(Catalog, icons);
    WithApplicantOrdered(l, badges, off);
    NoBadgesNoneReported(l, off);
    forall p ensures p in ApplicantPositions(icons, badges, off) <==>
      |icons(p)| > 0 && HasApplicant(icons(p)[0], badges, off)
    {
      assert Catalog[Rank(p)] == p;
      if |icons(p)| > 0 && HasApplicant(icons(p)[0], badges, off) {
        assert (p, icons(p)[0]) in l;
      }
    }
  }

  /**
   * Without an `applicant_offset` setting, a position is reported exactly when
   * a badge lies within 150 px horizontally and 50 px vertically of its icon.
   */
  lemma DefaultBox(cfg: Config, icons: Position -> seq<Point>, badges: seq<Point>)
    requires cfg.applicantOffset.None?
    ensures forall p :: p in ApplicantPositions(icons, badges, ApplicantOffset(cfg)) <==>
      |icons(p)| > 0 && exists b :: b in badges && Abs(b.x - icons(p)[0].x) <= 150 && Abs(b.y - icons(p)[0].y) <= 50
  {
    ApplicantPositionsMeaning(icons, badges, ApplicantOffset(cfg));
  }

  /** The box is inclusive: a badge exactly `off` away counts, one pixel further does not. */
  lemma NearBoundary(icon: Point, off: Offset)
    requires off.x >= 0 && off.y >= 0
    ensures Near(Point(icon.x + off.x, icon.y - off.y), icon, off)
    ensures !Near(Point(icon.x + off.x + 1, icon.y), icon, off)
    ensures !Near(Point(icon.x, icon.y - off.y - 1), icon, off)
  {
  }

  /** The report over the first k + 1 located entries, from that over the first k. */
  lemma WithApplicantStep(l: seq<(Position, Point)>, k: nat, badges: seq<Point>, off: Offset)
    requires k < |l|
    ensures WithApplicant(l[..k + 1], badges, off) ==
      WithApplicant(l[..k], badges, off) + (if HasApplicant(l[k].1, badges, off) then [l[k].0] else [])
  {
    assert l[..k + 1][..k] == l[..k];
    assert l[..k + 1][k] == l[k];
  }

  /** The scan of the badges for one located icon, stopping at the first one nearby. */
  method BadgeNear(loc: Point, badges: seq<Point>, off: Offset) returns (found: bool)
    ensures found == HasApplicant(loc, badges, off)
  {
    for j := 0 to |badges|
      invariant forall i :: 0 <= i < j ==> !Near(badges[i], loc, off)
    {
      if Abs(badges[j].x - loc.x) <= off.x && Abs(badges[j].y - loc.y) <= off.y {
        assert badges[j] in badges && Near(badges[j], loc, off);
        return true;
      }
    }
    forall b | b in badges ensures !Near(b, loc, off) {
      var i :| 0 <= i < |badges| && badges[i] == b;
    }
    return false;
  }

  method FindPositionsWithApplicants(icons: Position -> seq<Point>, badges: seq<Point>, off: Offset)
    returns (positions: seq<Position>)
    ensures positions == ApplicantPositions(icons, badges, off)
  {
    // Locate every position, keeping the first match of each.
    var allPositions: seq<(Position, Point)> := [];
    for k := 0 to |Catalog|
      invariant allPositions == Located(Catalog[..k], icons)
    {
      var p := Catalog[k];
      assert Catalog[..k + 1][..k] == Catalog[..k];
      if |icons(p)| > 0 {
        allPositions := allPositions + [(p, icons(p)[0])];
      }
    }
    assert Catalog[..|Catalog|] == Catalog;

    if |badges| == 0 {
      NoBadgesNoneReported(allPositions, off);
      return [];
    }

    positions := [];
    for k := 0 to |allPositions|
      invariant positions == WithApplicant(allPositions[..k], badges, off)
    {
      var (p, loc) := allPositions[k];
      WithApplicantStep(allPositions, k, badges, off);
      var found := BadgeNear(loc, badges, off);
      if found {
        positions := positions + [p];
      }
    }
    assert allPositions[..|allPositions|] == allPositions;
  }
}
