/**
 * Shared vocabulary of the secretary routine: the position catalog, screen
 * coordinates, the configuration the routine reads, and the abstract trace of
 * device actions (taps, swipes, back presses, audit log writes) it issues.
 */
module Types {

  datatype Option<T> = None | Some(value: T)

  /** The seven appointable positions of the secretary screen. */
  datatype Position =
    | Strategy | Security | Development | Science | Interior  // the "secretary types"
    | Military | Administrative                                // the "additional types"

  const SecretaryTypes: seq<Position> := [Strategy, Security, Development, Science, Interior]
  const AdditionalTypes: seq<Position> := [Military, Administrative]

  /** The order in which every scan visits the positions. */
  const Catalog: seq<Position> := SecretaryTypes + AdditionalTypes

  /** Index of a position in the catalog: every position is listed, once. */
  function Rank(p: Position): (r: nat)
    ensures r < |Catalog| && Catalog[r] == p
    ensures forall i :: 0 <= i < |Catalog| && Catalog[i] == p ==> i == r
  {
    match p
    case Strategy => 0
    case Security => 1
    case Development => 2
    case Science => 3
    case Interior => 4
    case Military => 5
    case Administrative => 6
  }

  /** Strictly increasing catalog rank: catalog order, no position twice. */
  predicate InCatalogOrder(ps: seq<Position>) {
    forall i, j :: 0 <= i < j < |ps| ==> Rank(ps[i]) < Rank(ps[j])
  }

  /** Dropping the head keeps catalog order, and the head does not occur again. */
  lemma InCatalogOrderTail(ps: seq<Position>)
    requires InCatalogOrder(ps) && ps != []
    ensures InCatalogOrder(ps[1..]) && ps[0] !in ps[1..]
  {
    forall i, j | 0 <= i < j < |ps[1..]| ensures Rank(ps[1..][i]) < Rank(ps[1..][j]) {
      assert ps[1..][i] == ps[i + 1] && ps[1..][j] == ps[j + 1];
    }
    forall k | 0 <= k < |ps[1..]| ensures ps[1..][k] != ps[0] {
      assert Rank(ps[0]) < Rank(ps[k + 1]);
    }
  }

  lemma CatalogInCatalogOrder()
    ensures InCatalogOrder(Catalog)
  {
    forall i, j | 0 <= i < j < |Catalog| ensures Rank(Catalog[i]) < Rank(Catalog[j]) {
      assert Rank(Catalog[i]) == i && Rank(Catalog[j]) == j;
    }
  }

  /**
   * The state after a sweep over several positions: the combined result, the
   * last-approve times, and the actions issued.
   */
  datatype Sweep = Sweep(ok: bool, last: map<Position, nat>, trace: seq<Action>)

  /** A screen coordinate, in pixels, as the template matcher reports it. */
  datatype Point = Point(x: int, y: int)

  /** The badge-to-icon proximity box. */
  datatype Offset = Offset(x: int, y: int)

  const DefaultApplicantOffset := Offset(150, 50)

  /**
   * The `auto_remove` configuration section, when it is present and non-empty.
   * `active` is the flag with its default (true) already applied; `titleCfg`
   * holds the configured eviction delay, in seconds, of each listed position
   * (an absent `title_cfg` is the empty map).
   */
  datatype AutoRemove = AutoRemove(active: bool, titleCfg: map<Position, int>)

  /**
   * The read-only configuration: the alliance whitelist (a list, tested by
   * exact membership), the optional `applicant_offset`, and the optional
   * `auto_remove` section (None when it is missing or empty).
   */
  datatype Config = Config(
    whitelist: seq<string>,
    applicantOffset: Option<Offset>,
    autoRemove: Option<AutoRemove>)

  function ApplicantOffset(cfg: Config): Offset {
    match cfg.applicantOffset
    case None => DefaultApplicantOffset
    case Some(o) => o
  }

  /** What the routine does to the device and to the audit log, in order. */
  datatype Action =
    | OpenProfileMenu
    | TapCapitol
    | SwipeDown
    | SwipeUp
    | TapPosition(position: Position)
    | TapList
    | TapAccept(at: Point)
    | TapReject(at: Point)
    | TapConfirm
    | LogRejected(alliance: string, original: string)
    | TapDismiss
    | TapConfirmBlue
    | Back

  /** `n` back presses. */
  function BackPresses(n: nat): seq<Action> {
    seq(n, _ => Back)
  }

  function Abs(n: int): (r: nat)
    ensures r == n || r == -n
  {
    if n < 0 then -n else n
  }
}
