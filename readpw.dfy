/**
 * The password-entry state machine of slock's `readpw`, as pure functions
 * over the loop's state. The class in module LockSession runs the same
 * machine in place on a 256-byte array and is proved to follow `Step`.
 */
module ReadPw {
  import opened Common
  import opened Keys

  /** Size of the `passwd` buffer, terminator included. */
  const BufSize: nat := 256

  /** The feedback colours, in the order of the source's enum. */
  datatype Color = Init | Input | Failed

  /** The colour shown after a key press: typing wins, then a recorded or configured failure. */
  function ColorOf(len: nat, failure: bool, failonclear: bool): (c: Color)
    ensures c == Input <==> len > 0
    ensures c == Failed <==> len == 0 && (failure || failonclear)
    ensures c == Init <==> len == 0 && !failure && !failonclear
  {
    if len > 0 then Input else if failure || failonclear then Failed else Init
  }

  /** `iscntrl` in the C locale (slock never calls setlocale). */
  predicate IsCntrl(b: byte): (r: bool)
    ensures b == 0 ==> r
    ensures 32 <= b <= 126 ==> !r
    ensures r ==> b < 128
  {
    b < 32 || b == 127
  }

  /** The C string held by `s`: the bytes before its first NUL, as `crypt` reads them. */
  function CString(s: seq<byte>): (r: seq<byte>)
    ensures |r| <= |s| && r == s[..|r|]
    ensures forall i :: 0 <= i < |r| ==> r[i] != 0
    ensures |r| < |s| ==> s[|r|] == 0
  {
    if s == [] || s[0] == 0 then [] else [s[0]] + CString(s[1..])
  }

  /** Whether typed text of `text` is appended to a buffer holding `len` bytes. */
  predicate Accepts(len: nat, text: seq<byte>)
  {
    |text| > 0 && !IsCntrl(text[0]) && len + |text| < BufSize
  }

  /** Accepted text always leaves room for the NUL that ends the C string. */
  lemma AcceptsLeavesNul(len: nat, text: seq<byte>)
    ensures Accepts(len, text) ==> 0 < |text| && len + |text| <= BufSize - 1
    ensures |text| > 0 && IsCntrl(text[0]) ==> !Accepts(len, text)
  {
  }

  /** `crypt(key, salt)`: the hash of `key`, or None where the C function returns NULL. */
  type CryptFn = (seq<byte>, seq<byte>) -> Option<seq<byte>>

  /** The local variables of `readpw`: the buffer, its cursor and the three flags. */
  datatype PwState = PwState(passwd: seq<byte>, len: nat, running: bool, failure: bool, oldc: Color)
  {
    predicate Valid() { |passwd| == BufSize && len < BufSize }

    /** The password typed so far. */
    function Typed(): seq<byte>
      requires Valid()
    {
      passwd[..len]
    }
  }

  /** The state on entry to `readpw`; the stack buffer holds whatever was there before. */
  function Start(junk: seq<byte>): (st: PwState)
    requires |junk| == BufSize
    ensures st.Valid() && st.Typed() == [] && st.running && !st.failure && st.oldc == Init
  {
    PwState(junk, 0, true, false, Init)
  }

  /** Whether the typed password hashes to the stored hash. */
  predicate Matches(st: PwState, crypt: CryptFn, hash: seq<byte>): (r: bool)
    requires st.Valid()
    // `crypt` did not return NULL, and `strcmp` found the two hashes equal
    ensures r <==> var h := crypt(CString(st.Typed()), hash); h.Some? && h.value == hash
  {
    crypt(CString(st.Typed()), hash) == Some(hash)
  }

  /** The state after one key press, and what it did outside the state. */
  datatype KeyResult = KeyResult(st: PwState, bell: bool, forward: bool, repaint: bool)

  /** The `switch` on the key symbol: the new state and whether the bell rang. */
  function Edit(st: PwState, a: Action, text: seq<byte>, crypt: CryptFn, hash: seq<byte>): (r: (PwState, bool))
    requires st.Valid() && st.running
    ensures r.0.Valid() && r.0.oldc == st.oldc
    // the loop ends only on Return with a password that hashes to the stored hash
    ensures !r.0.running <==> a == Submit && Matches(st, crypt, hash)
    ensures r.1 <==> a == Submit && !Matches(st, crypt, hash)
    ensures r.0.failure <==> st.failure || r.1
    // Return and Escape wipe the whole buffer
    ensures a in {Submit, Cancel} ==> r.0.passwd == Zeros(BufSize) && r.0.len == 0
    // BackSpace removes and clears exactly one byte, or does nothing
    ensures a == Erase && st.len > 0 ==>
              r.0.len == st.len - 1 && r.0.Typed() == st.Typed()[..st.len - 1]
              && r.0.passwd == st.passwd[st.len - 1 := 0]
    // other keys append their text when it fits and is not a control character
    ensures a == Type && Accepts(st.len, text) ==>
              r.0.len == st.len + |text| && r.0.Typed() == st.Typed() + text
              && r.0.passwd[r.0.len..] == st.passwd[r.0.len..]
    // everything else leaves the state alone
    ensures a !in {Submit, Cancel} && !(a == Erase && st.len > 0) && !(a == Type && Accepts(st.len, text))
            ==> r.0 == st
  {
    match a
    case Submit =>
      var running := !Matches(st, crypt, hash);
      (PwState(Zeros(BufSize), 0, running, st.failure || running, st.oldc), running)
    case Cancel =>
      (st.(passwd := Zeros(BufSize), len := 0), false)
    case Erase =>
      if st.len > 0 then (st.(passwd := st.passwd[st.len - 1 := 0], len := st.len - 1), false)
      else (st, false)
    case Type =>
      if Accepts(st.len, text) then
        (st.(passwd := st.passwd[..st.len] + text + st.passwd[st.len + |text|..], len := st.len + |text|), false)
      else (st, false)
    case _ =>
      (st, false)
  }

  /**
   * One key press with symbol `ksym` and text `text`, while the loop is running:
   * skipped keys change nothing; every other key goes through `Edit` and then
   * the colour is recomputed, with a repaint of every window when it changed.
   */
  function Step(st: PwState, ksym: nat, text: seq<byte>, crypt: CryptFn, hash: seq<byte>, failonclear: bool)
    : (r: KeyResult)
    requires st.Valid() && st.running
    ensures r.st.Valid()
    ensures Classify(ksym) == Discard ==> r == KeyResult(st, false, false, false)
    ensures r.forward <==> Classify(ksym) == Forward
    ensures Classify(ksym) != Discard ==>
              var e := Edit(st, Classify(ksym), text, crypt, hash);
              var color := ColorOf(e.0.len, e.0.failure, failonclear);
              && r.st.(oldc := st.oldc) == e.0 && r.bell == e.1
              && (r.repaint <==> r.st.running && color != st.oldc)
              && r.st.oldc == (if r.repaint then color else st.oldc)
    // while locked, the colour last painted is the colour of the new state
    ensures Classify(ksym) != Discard && r.st.running ==> r.st.oldc == ColorOf(r.st.len, r.st.failure, failonclear)
  {
    var a := Classify(ksym);
    if a == Discard then KeyResult(st, false, false, false)
    else
      var (s1, bell) := Edit(st, a, text, crypt, hash);
      var color := ColorOf(s1.len, s1.failure, failonclear);
      var repaint := s1.running && st.oldc != color;
      KeyResult(s1.(oldc := if repaint then color else st.oldc), bell, a == Forward, repaint)
  }

  /** An event delivered by `XNextEvent`. */
  datatype Event =
    | KeyPress(ksym: nat, text: seq<byte>)
    | ScreenChange(window: nat, width: nat, height: nat, rotation: nat)
    | OtherEvent

  /** The state after one event; only key presses touch the password state. */
  function Next(st: PwState, ev: Event, crypt: CryptFn, hash: seq<byte>, failonclear: bool): (r: PwState)
    requires st.Valid() && st.running
    ensures r.Valid()
    ensures st.failure ==> r.failure
    ensures !r.running ==> ev.KeyPress? && Classify(ev.ksym) == Submit && Matches(st, crypt, hash)
    ensures !ev.KeyPress? ==> r == st
  {
    if ev.KeyPress? then Step(st, ev.ksym, ev.text, crypt, hash, failonclear).st else st
  }

  /**
   * The event loop over `events`: events are handled while `running` holds.
   * Returns the final state and how many events were taken from the queue.
   */
  function Run(st: PwState, events: seq<Event>, crypt: CryptFn, hash: seq<byte>, failonclear: bool)
    : (r: (PwState, nat))
    requires st.Valid()
    ensures r.0.Valid() && r.1 <= |events|
    ensures r.0.running ==> r.1 == |events|
    ensures !st.running ==> r == (st, 0)
    ensures st.failure ==> r.0.failure
    decreases |events|
  {
    if !st.running || events == [] then (st, 0)
    else
      var tail := Run(Next(st, events[0], crypt, hash, failonclear), events[1..], crypt, hash, failonclear);
      (tail.0, tail.1 + 1)
  }

  /** One turn of the loop. */
  lemma RunOne(st: PwState, events: seq<Event>, crypt: CryptFn, hash: seq<byte>, failonclear: bool)
    requires st.Valid() && st.running && events != []
    ensures Run(st, events, crypt, hash, failonclear).0
            == Run(Next(st, events[0], crypt, hash, failonclear), events[1..], crypt, hash, failonclear).0
    ensures Run(st, events, crypt, hash, failonclear).1
            == Run(Next(st, events[0], crypt, hash, failonclear), events[1..], crypt, hash, failonclear).1 + 1
  {
    assert events != [] && st.running;
  }

  /** Running over a prefix and then the rest is running over the whole queue. */
  lemma {:induction false} RunSplit(st: PwState, events: seq<Event>, k: nat, crypt: CryptFn, hash: seq<byte>, failonclear: bool)
    requires st.Valid() && k <= |events|
    requires Run(st, events[..k], crypt, hash, failonclear).0.running
    ensures var pre := Run(st, events[..k], crypt, hash, failonclear);
            var rest := Run(pre.0, events[k..], crypt, hash, failonclear);
            Run(st, events, crypt, hash, failonclear) == (rest.0, k + rest.1)
    decreases k
  {
    if k > 0 {
      assert st.running;
      var st' := Next(st, events[0], crypt, hash, failonclear);
      assert events[..k][1..] == events[1..][..k - 1];
      assert events[k..] == events[1..][k - 1..];
      RunSplit(st', events[1..], k - 1, crypt, hash, failonclear);
    } else {
      assert events[k..] == events;
    }
  }

  /**
   * The loop only ever stops on a Return whose typed password hashes to the
   * stored hash: that event is the last one consumed.
   */
  lemma {:induction false} UnlockOnlyByPassword(st: PwState, events: seq<Event>, crypt: CryptFn, hash: seq<byte>, failonclear: bool)
    requires st.Valid() && st.running
    requires !Run(st, events, crypt, hash, failonclear).0.running
    ensures var n := Run(st, events, crypt, hash, failonclear).1;
            var before := Run(st, events[..n - 1], crypt, hash, failonclear).0;
            && 1 <= n <= |events|
            && events[n - 1].KeyPress? && Classify(events[n - 1].ksym) == Submit
            && before.running && Matches(before, crypt, hash)
    decreases |events|
  {
    var st' := Next(st, events[0], crypt, hash, failonclear);
    var n := Run(st, events, crypt, hash, failonclear).1;
    if !st'.running {
      assert n == 1;
      assert events[..0] == [];
    } else {
      UnlockOnlyByPassword(st', events[1..], crypt, hash, failonclear);
      var m := Run(st', events[1..], crypt, hash, failonclear).1;
      assert n == m + 1;
      assert events[1..][..m - 1] == events[..n - 1][1..];
    }
  }

  /** When `crypt` always fails, no sequence of events unlocks the screen. */
  lemma {:induction false} FailClosed(st: PwState, events: seq<Event>, crypt: CryptFn, hash: seq<byte>, failonclear: bool)
    requires st.Valid() && st.running
    requires forall key :: crypt(key, hash) == None
    ensures Run(st, events, crypt, hash, failonclear).0.running
    decreases |events|
  {
    if events != [] {
      var st' := Next(st, events[0], crypt, hash, failonclear);
      assert !Matches(st, crypt, hash);
      FailClosed(st', events[1..], crypt, hash, failonclear);
    }
  }
}
