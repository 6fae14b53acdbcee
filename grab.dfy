/**
 * Input grabbing in slock: the bounded retry loop of `lockscreen` and the
 * all-or-nothing loop of `main` over the screens. Replies of the X server
 * to grab requests are an oracle indexed by device and round.
 */
module Grab {
  import opened Common

  /** Grab reply codes of X.h (`GrabSuccess`, `AlreadyGrabbed`); other codes are failures. */
  const GrabSuccess: int := 0
  const AlreadyGrabbed: int := 1
  /** Value of `ptgrab` and `kbgrab` before the first request. */
  const NotRequested: int := -1
  /** Rounds of the retry loop (six rounds 100 ms apart). */
  const MaxRounds: nat := 6

  datatype Device = Pointer | Keyboard

  /** The server's reply to a grab request for a device in a given round (counted from 0). */
  type Oracle = (Device, nat) -> int

  /** The value of `ptgrab` / `kbgrab` after `n` rounds: a success is never requested again. */
  function Status(g: Oracle, d: Device, n: nat): (r: int)
    // a device is held iff some reply so far was a success
    ensures r == GrabSuccess <==> exists i :: 0 <= i < n && g(d, i) == GrabSuccess
    ensures n > 0 && r != GrabSuccess ==> r == g(d, n - 1)
  {
    if n == 0 then NotRequested
    else if Status(g, d, n - 1) == GrabSuccess then GrabSuccess
    else g(d, n - 1)
  }

  predicate Retryable(s: int) { s == GrabSuccess || s == AlreadyGrabbed }

  /** Both devices are grabbed after `n` rounds. */
  predicate Grabbed(g: Oracle, n: nat)
  {
    Status(g, Pointer, n) == GrabSuccess && Status(g, Keyboard, n) == GrabSuccess
  }

  /** In round `i` the device was still not held and the server refused it outright. */
  predicate HardFailure(g: Oracle, d: Device, i: nat)
  {
    Status(g, d, i) != GrabSuccess && !Retryable(g(d, i))
  }

  /** After `n` rounds a device holds a reply that is neither success nor `AlreadyGrabbed`. */
  predicate Hopeless(g: Oracle, n: nat): (r: bool)
    // after a round: a device still not held got a hard failure in that round
    ensures n > 0 ==> (r <==> HardFailure(g, Pointer, n - 1) || HardFailure(g, Keyboard, n - 1))
  {
    !Retryable(Status(g, Pointer, n)) || !Retryable(Status(g, Keyboard, n))
  }

  /** The round after which the loop leaves, looking from round `from` on. */
  function StopRound(g: Oracle, from: nat): (n: nat)
    requires 0 < from <= MaxRounds
    ensures from <= n <= MaxRounds
    ensures forall i :: from <= i < n ==> !Grabbed(g, i) && !Hopeless(g, i)
    ensures n < MaxRounds ==> Grabbed(g, n) || Hopeless(g, n)
    decreases MaxRounds - from
  {
    if from == MaxRounds || Grabbed(g, from) || Hopeless(g, from) then from
    else StopRound(g, from + 1)
  }

  /** How many rounds `lockscreen` runs. */
  function Rounds(g: Oracle): nat
  {
    StopRound(g, 1)
  }

  /** `lockscreen` returns a lock (non-NULL) for a screen whose replies are `g`. */
  predicate Locks(g: Oracle)
  {
    Grabbed(g, Rounds(g))
  }

  /** Once a device is grabbed it stays grabbed. */
  lemma {:induction false} SuccessSticks(g: Oracle, d: Device, n: nat, m: nat)
    requires n <= m && Status(g, d, n) == GrabSuccess
    ensures Status(g, d, m) == GrabSuccess
    decreases m - n
  {
    if n < m {
      SuccessSticks(g, d, n, m - 1);
    }
  }

  /** A screen held by another client for the whole 600 ms is not locked, after all six rounds. */
  lemma {:induction false} AlwaysHeld(g: Oracle)
    requires forall d, i :: g(d, i) == AlreadyGrabbed
    ensures Rounds(g) == MaxRounds && !Locks(g)
  {
    forall n: nat | 0 < n ensures Status(g, Pointer, n) == AlreadyGrabbed && Status(g, Keyboard, n) == AlreadyGrabbed {
      StatusHeld(g, n);
    }
  }

  lemma {:induction false} StatusHeld(g: Oracle, n: nat)
    requires 0 < n && forall d, i :: g(d, i) == AlreadyGrabbed
    ensures Status(g, Pointer, n) == AlreadyGrabbed && Status(g, Keyboard, n) == AlreadyGrabbed
  {
    if n > 1 {
      StatusHeld(g, n - 1);
    }
  }

  /** Any failing reply other than `AlreadyGrabbed` ends the loop in that round. */
  lemma StopsOnHardFailure(g: Oracle, n: nat)
    requires 0 < n <= MaxRounds && Hopeless(g, n)
    ensures Rounds(g) <= n
  {
  }

  /** The requests of round `i`: only devices not yet grabbed are asked for. */
  function RoundRequests(g: Oracle, i: nat): seq<(Device, nat)>
  {
    (if Status(g, Pointer, i) != GrabSuccess then [(Pointer, i)] else [])
    + (if Status(g, Keyboard, i) != GrabSuccess then [(Keyboard, i)] else [])
  }

  /** The grab requests of the first `n` rounds, in the order they are made. */
  function Requests(g: Oracle, n: nat): seq<(Device, nat)>
  {
    if n == 0 then [] else Requests(g, n - 1) + RoundRequests(g, n - 1)
  }

  /** A device is requested in round `i` exactly when it was not grabbed before that round. */
  lemma {:induction false} RequestsExact(g: Oracle, n: nat)
    ensures forall k :: 0 <= k < |Requests(g, n)| ==>
              Requests(g, n)[k].1 < n && Status(g, Requests(g, n)[k].0, Requests(g, n)[k].1) != GrabSuccess
    ensures forall d, i :: 0 <= i < n ==> ((d, i) in Requests(g, n) <==> Status(g, d, i) != GrabSuccess)
  {
    if n > 0 {
      RequestsExact(g, n - 1);
      var last := RoundRequests(g, n - 1);
      assert forall k :: 0 <= k < |last| ==> last[k].1 == n - 1 && Status(g, last[k].0, n - 1) != GrabSuccess;
      forall d: Device, i | 0 <= i < n
        ensures (d, i) in Requests(g, n) <==> Status(g, d, i) != GrabSuccess
      {
        if i < n - 1 {
          assert (d, i) !in last;
        } else if d == Pointer {
          assert (d, i) in last <==> Status(g, d, i) != GrabSuccess;
        } else {
          assert (d, i) in last <==> Status(g, d, i) != GrabSuccess;
        }
      }
    }
  }

  /** The loop leaves after round `n` when no earlier round was decisive and round `n` is (or is the last). */
  lemma {:induction false} StopRoundIs(g: Oracle, from: nat, n: nat)
    requires 0 < from <= n <= MaxRounds
    requires forall j :: from <= j < n ==> !Grabbed(g, j) && !Hopeless(g, j)
    requires n == MaxRounds || Grabbed(g, n) || Hopeless(g, n)
    ensures StopRound(g, from) == n
    decreases n - from
  {
    if from < n {
      StopRoundIs(g, from + 1, n);
    }
  }

  /** No round from 1 to `n` was decisive. */
  predicate Undecided(g: Oracle, n: nat)
  {
    forall j :: 1 <= j <= n ==> !Grabbed(g, j) && !Hopeless(g, j)
  }

  lemma UndecidedStep(g: Oracle, n: nat)
    requires Undecided(g, n) && !Grabbed(g, n + 1) && !Hopeless(g, n + 1)
    ensures Undecided(g, n + 1)
  {
  }

  /**
   * The retry loop of `lockscreen`. Returns whether both grabs succeeded,
   * how many rounds ran, and the (device, round) requests made, in order.
   */
  method LockScreen(g: Oracle) returns (ok: bool, rounds: nat, requests: seq<(Device, nat)>)
    ensures rounds == Rounds(g) && 1 <= rounds <= MaxRounds
    ensures ok <==> Grabbed(g, rounds)
    ensures requests == Requests(g, rounds)
  {
    var ptgrab, kbgrab := NotRequested, NotRequested;
    requests := [];
    var i := 0;
    while i < MaxRounds
      invariant 0 <= i <= MaxRounds
      invariant ptgrab == Status(g, Pointer, i) && kbgrab == Status(g, Keyboard, i)
      invariant Undecided(g, i)
      invariant requests == Requests(g, i)
    {
      if ptgrab != GrabSuccess {
        ptgrab := g(Pointer, i);
        requests := requests + [(Pointer, i)];
      }
      if kbgrab != GrabSuccess {
        kbgrab := g(Keyboard, i);
        requests := requests + [(Keyboard, i)];
      }
      assert ptgrab == Status(g, Pointer, i + 1) && kbgrab == Status(g, Keyboard, i + 1);
      assert requests == Requests(g, i + 1);
      if ptgrab == GrabSuccess && kbgrab == GrabSuccess {
        StopRoundIs(g, 1, i + 1);
        ok, rounds := true, i + 1;
        return;
      }
      if !Retryable(ptgrab) || !Retryable(kbgrab) {
        StopRoundIs(g, 1, i + 1);
        ok, rounds := false, i + 1;
        return;
      }
      assert !Grabbed(g, i + 1) && !Hopeless(g, i + 1);
      UndecidedStep(g, i);
      i := i + 1;
    }
    StopRoundIs(g, 1, MaxRounds);
    ok, rounds := false, MaxRounds;
  }

  /**
   * The loop of `main` over the screens: screens are locked in order and the
   * loop stops at the first failure. `readpw` is entered only when every
   * screen is locked; otherwise `main` returns 1.
   */
  method LockAll(nscreens: nat, screens: nat -> Oracle) returns (nlocks: nat, attempted: seq<nat>, enterReadpw: bool)
    ensures nlocks <= nscreens
    ensures forall s :: 0 <= s < nlocks ==> Locks(screens(s))
    ensures nlocks < nscreens ==> !Locks(screens(nlocks))
    ensures attempted == Range(0, if nlocks < nscreens then nlocks + 1 else nscreens)
    ensures enterReadpw <==> nlocks == nscreens
    ensures enterReadpw <==> forall s :: 0 <= s < nscreens ==> Locks(screens(s))
  {
    nlocks := 0;
    attempted := [];
    var s := 0;
    while s < nscreens
      invariant s <= nscreens && nlocks == s
      invariant forall t :: 0 <= t < s ==> Locks(screens(t))
      invariant attempted == Range(0, s)
    {
      RangeSnoc(0, s);
      attempted := attempted + [s];
      var ok, _, _ := LockScreen(screens(s));
      if ok {
        nlocks := nlocks + 1;
      } else {
        break;
      }
      s := s + 1;
    }
    enterReadpw := nlocks == nscreens;
  }
}
