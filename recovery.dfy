/**
 * `exit_to_secretary_menu`: the recovery used after every visit. It checks
 * for the secretary-menu anchor and presses back between checks, at most ten
 * times.
 *
 * The anchor check of attempt i (0-based) is the i-th entry of a script; an
 * attempt beyond the end of the script does not see the anchor.
 */
module Recovery {
  import opened Types

  const MaxAttempts: nat := 10

  predicate AnchorSeen(anchor: seq<bool>, i: nat) {
    i < |anchor| && anchor[i]
  }

  /** Whether the anchor was reached, and how many back presses were issued. */
  datatype Recovered = Recovered(ok: bool, presses: nat)

  function RecoverFrom(anchor: seq<bool>, i: nat): Recovered
    decreases MaxAttempts - i
  {
    if i >= MaxAttempts then Recovered(false, MaxAttempts)
    else if AnchorSeen(anchor, i) then Recovered(true, i)
    else RecoverFrom(anchor, i + 1)
  }

  /** The outcome of one recovery with the given anchor script. */
  function Recover(anchor: seq<bool>): Recovered {
    RecoverFrom(anchor, 0)
  }

  lemma {:induction false} RecoverFromMeaning(anchor: seq<bool>, i: nat)
    requires i <= MaxAttempts
    ensures var r := RecoverFrom(anchor, i);
      if r.ok then
        i <= r.presses < MaxAttempts && AnchorSeen(anchor, r.presses) &&
        forall j :: i <= j < r.presses ==> !AnchorSeen(anchor, j)
      else
        r.presses == MaxAttempts && forall j :: i <= j < MaxAttempts ==> !AnchorSeen(anchor, j)
    decreases MaxAttempts - i
  {
    if i < MaxAttempts && !AnchorSeen(anchor, i) {
      RecoverFromMeaning(anchor, i + 1);
    }
  }

  /**
   * If the anchor is first seen on attempt i < 10, recovery succeeds after
   * exactly i back presses; if it is never seen in ten attempts, recovery
   * fails after exactly ten back presses.
   */
  lemma RecoverMeaning(anchor: seq<bool>)
    ensures Recover(anchor).ok <==> exists i :: 0 <= i < MaxAttempts && AnchorSeen(anchor, i)
    ensures Recover(anchor).ok ==>
      Recover(anchor).presses < MaxAttempts && AnchorSeen(anchor, Recover(anchor).presses) &&
      forall j :: 0 <= j < Recover(anchor).presses ==> !AnchorSeen(anchor, j)
    ensures !Recover(anchor).ok ==> Recover(anchor).presses == MaxAttempts
  {
    RecoverFromMeaning(anchor, 0);
  }

  /** The anchor already showing: success with no back press. */
  lemma AlreadyAnchored(anchor: seq<bool>)
    requires AnchorSeen(anchor, 0)
    ensures Recover(anchor) == Recovered(true, 0)
  {
  }

  method ExitToSecretaryMenu(anchor: seq<bool>) returns (ok: bool, presses: nat)
    ensures Recovered(ok, presses) == Recover(anchor)
    ensures ok ==> presses < MaxAttempts && AnchorSeen(anchor, presses)
    ensures forall j :: 0 <= j < presses ==> !AnchorSeen(anchor, j)
    ensures !ok ==> presses == MaxAttempts
  {
    presses := 0;
    for attempt := 0 to MaxAttempts
      invariant presses == attempt
      invariant forall j :: 0 <= j < attempt ==> !AnchorSeen(anchor, j)
      invariant RecoverFrom(anchor, attempt) == Recover(anchor)
    {
      if attempt < |anchor| && anchor[attempt] {
        return true, presses;
      }
      presses := presses + 1;
    }
    ok := false;
  }
}
