/**
 * `readpw` as it runs: the 256-byte stack buffer is an array updated in
 * place, the loop's variables are fields, and the X requests it makes
 * (bell, forwarded key, repaint, resize, raise) are recorded in ghost logs.
 * Every method is proved to follow the pure machine of module ReadPw.
 */
module LockSession {
  import opened Common
  import opened Keys
  import opened ReadPw

  /** RandR rotation values (Xrandr.h). */
  const RR_Rotate_90: nat := 2
  const RR_Rotate_270: nat := 8

  /** Window size for a screen-change notification: quarter turns swap width and height. */
  function ResizeDims(width: nat, height: nat, rotation: nat): (d: (nat, nat))
    ensures rotation in {RR_Rotate_90, RR_Rotate_270} ==> d == (height, width)
    ensures rotation !in {RR_Rotate_90, RR_Rotate_270} ==> d == (width, height)
  {
    if rotation == RR_Rotate_90 || rotation == RR_Rotate_270 then (height, width) else (width, height)
  }

  /** The first screen whose lock window is `window`, as the loop with `break` finds it. */
  method FindScreen(wins: seq<nat>, window: nat) returns (idx: Option<nat>)
    ensures idx.Some? ==> idx.value < |wins| && wins[idx.value] == window
                          && forall j :: 0 <= j < idx.value ==> wins[j] != window
    ensures idx.None? <==> window !in wins
  {
    idx := None;
    var screen := 0;
    while screen < |wins|
      invariant 0 <= screen <= |wins|
      invariant forall j :: 0 <= j < screen ==> wins[j] != window
    {
      if wins[screen] == window {
        idx := Some(screen);
        return;
      }
      screen := screen + 1;
    }
  }

  /** What the loop asks of the X server, as counted and listed by the ghost logs of a `Session`. */
  datatype Effects = Effects(bells: nat, forwarded: seq<nat>, repainted: seq<nat>,
                             resized: seq<(nat, nat, nat)>, raised: seq<nat>)

  const NoEffects := Effects(0, [], [], [], [])

  /** The effects of `a` followed by those of `b`. */
  function Then(a: Effects, b: Effects): Effects
  {
    Effects(a.bells + b.bells, a.forwarded + b.forwarded, a.repainted + b.repainted,
            a.resized + b.resized, a.raised + b.raised)
  }

  lemma ThenAssoc(a: Effects, b: Effects, c: Effects)
    ensures Then(Then(a, b), c) == Then(a, Then(b, c))
  {
    assert (a.forwarded + b.forwarded) + c.forwarded == a.forwarded + (b.forwarded + c.forwarded);
    assert (a.repainted + b.repainted) + c.repainted == a.repainted + (b.repainted + c.repainted);
    assert (a.resized + b.resized) + c.resized == a.resized + (b.resized + c.resized);
    assert (a.raised + b.raised) + c.raised == a.raised + (b.raised + c.raised);
  }

  lemma ThenNone(a: Effects)
    ensures Then(a, NoEffects) == a
  {
    assert a.forwarded + [] == a.forwarded && a.repainted + [] == a.repainted;
    assert a.resized + [] == a.resized && a.raised + [] == a.raised;
  }

  /**
   * The requests one event makes while the loop runs on `wins` (one lock
   * window per screen): a key press rings, forwards and repaints as `Step`
   * says; a RandR screen change resizes the first window it names; any
   * other event raises every window.
   */
  function EventEffects(st: PwState, ev: Event, crypt: CryptFn, hash: seq<byte>, failonclear: bool,
                        rrActive: bool, wins: seq<nat>): (r: Effects)
    requires st.Valid() && st.running
    ensures r.bells <= 1 && |r.forwarded| <= 1 && |r.resized| <= 1
    // only key presses ring, forward and repaint; only the others resize and raise
    ensures ev.KeyPress? ==> r.resized == [] && r.raised == []
    ensures !ev.KeyPress? ==> r.bells == 0 && r.forwarded == [] && r.repainted == []
  {
    match ev
    case KeyPress(k, t) =>
      var r := Step(st, k, t, crypt, hash, failonclear);
      Effects(if r.bell then 1 else 0, if r.forward then [k] else [],
              if r.repaint then Range(0, |wins|) else [], [], [])
    case ScreenChange(window, width, height, rotation) =>
      if !rrActive then NoEffects.(raised := Range(0, |wins|))
      else if window in wins then
        var d := ResizeDims(width, height, rotation);
        NoEffects.(resized := [(FirstIndex(wins, window), d.0, d.1)])
      else NoEffects
    case OtherEvent =>
      NoEffects.(raised := Range(0, |wins|))
  }

  /** The requests of the whole loop over `events`, in the order they are made. */
  function RunEffects(st: PwState, events: seq<Event>, crypt: CryptFn, hash: seq<byte>, failonclear: bool,
                      rrActive: bool, wins: seq<nat>): Effects
    requires st.Valid()
    decreases |events|
  {
    if !st.running || events == [] then NoEffects
    else
      Then(EventEffects(st, events[0], crypt, hash, failonclear, rrActive, wins),
           RunEffects(Next(st, events[0], crypt, hash, failonclear), events[1..], crypt, hash, failonclear, rrActive, wins))
  }

  /** One turn of the loop, for the effects. */
  lemma RunEffectsOne(st: PwState, events: seq<Event>, crypt: CryptFn, hash: seq<byte>, failonclear: bool,
                      rrActive: bool, wins: seq<nat>)
    requires st.Valid() && st.running && events != []
    ensures RunEffects(st, events, crypt, hash, failonclear, rrActive, wins)
            == Then(EventEffects(st, events[0], crypt, hash, failonclear, rrActive, wins),
                    RunEffects(Next(st, events[0], crypt, hash, failonclear), events[1..], crypt, hash, failonclear, rrActive, wins))
  {
    assert events != [] && st.running;
  }

  /**
   * One turn of `Session.Run` keeps its invariant: what was logged so far
   * (`logs`, from state `st` at event `k`) followed by the rest of the loop
   * is the whole loop run from `st0` after `logs0`.
   */
  lemma LogsStep(logs0: Effects, st0: PwState, logs: Effects, st: PwState, events: seq<Event>, k: nat,
                 crypt: CryptFn, hash: seq<byte>, failonclear: bool, rrActive: bool, wins: seq<nat>)
    requires st0.Valid() && st.Valid() && st.running && k < |events|
    requires Then(logs, RunEffects(st, events[k..], crypt, hash, failonclear, rrActive, wins))
             == Then(logs0, RunEffects(st0, events, crypt, hash, failonclear, rrActive, wins))
    ensures Then(Then(logs, EventEffects(st, events[k], crypt, hash, failonclear, rrActive, wins)),
                 RunEffects(Next(st, events[k], crypt, hash, failonclear), events[k + 1..], crypt, hash, failonclear, rrActive, wins))
            == Then(logs0, RunEffects(st0, events, crypt, hash, failonclear, rrActive, wins))
  {
    var rest := events[k..];
    assert rest[0] == events[k] && rest[1..] == events[k + 1..];
    RunEffectsOne(st, rest, crypt, hash, failonclear, rrActive, wins);
    ThenAssoc(logs, EventEffects(st, events[k], crypt, hash, failonclear, rrActive, wins),
              RunEffects(Next(st, events[k], crypt, hash, failonclear), events[k + 1..], crypt, hash, failonclear, rrActive, wins));
  }

  /** One turn of `Session.Run` keeps its invariant on the password state and the count. */
  lemma RunStep(st0: PwState, st: PwState, events: seq<Event>, k: nat, crypt: CryptFn, hash: seq<byte>, failonclear: bool)
    requires st0.Valid() && st.Valid() && st.running && k < |events|
    requires ReadPw.Run(st0, events, crypt, hash, failonclear).0 == ReadPw.Run(st, events[k..], crypt, hash, failonclear).0
    requires ReadPw.Run(st0, events, crypt, hash, failonclear).1 == k + ReadPw.Run(st, events[k..], crypt, hash, failonclear).1
    ensures var st' := Next(st, events[k], crypt, hash, failonclear);
            && ReadPw.Run(st0, events, crypt, hash, failonclear).0 == ReadPw.Run(st', events[k + 1..], crypt, hash, failonclear).0
            && ReadPw.Run(st0, events, crypt, hash, failonclear).1 == k + 1 + ReadPw.Run(st', events[k + 1..], crypt, hash, failonclear).1
  {
    var rest := events[k..];
    assert rest[0] == events[k] && rest[1..] == events[k + 1..];
    RunOne(st, rest, crypt, hash, failonclear);
  }

  /** One event sets `failure` exactly when it rings the bell, or keeps it set. */
  lemma BellStep(st: PwState, ev: Event, crypt: CryptFn, hash: seq<byte>, failonclear: bool,
                 rrActive: bool, wins: seq<nat>)
    requires st.Valid() && st.running
    ensures Next(st, ev, crypt, hash, failonclear).failure
            <==> st.failure || EventEffects(st, ev, crypt, hash, failonclear, rrActive, wins).bells > 0
  {
    if ev.KeyPress? {
      var r := Step(st, ev.ksym, ev.text, crypt, hash, failonclear);
      assert r.st.failure == r.st.(oldc := st.oldc).failure;
    }
  }

  /**
   * The bell rings exactly on failed attempts: the loop ends with `failure`
   * set iff it was set on entry or the bell rang at least once.
   */
  lemma {:induction false} BellIffFailure(st: PwState, events: seq<Event>, crypt: CryptFn, hash: seq<byte>,
                                          failonclear: bool, rrActive: bool, wins: seq<nat>)
    requires st.Valid()
    ensures ReadPw.Run(st, events, crypt, hash, failonclear).0.failure
            <==> st.failure || RunEffects(st, events, crypt, hash, failonclear, rrActive, wins).bells > 0
    decreases |events|
  {
    if st.running && events != [] {
      var st' := Next(st, events[0], crypt, hash, failonclear);
      BellIffFailure(st', events[1..], crypt, hash, failonclear, rrActive, wins);
      BellStep(st, events[0], crypt, hash, failonclear, rrActive, wins);
      RunOne(st, events, crypt, hash, failonclear);
      RunEffectsOne(st, events, crypt, hash, failonclear, rrActive, wins);
    }
  }

  /** Only the media keys are ever forwarded to the root window. */
  lemma {:induction false} ForwardsOnlyMedia(st: PwState, events: seq<Event>, crypt: CryptFn, hash: seq<byte>,
                                             failonclear: bool, rrActive: bool, wins: seq<nat>)
    requires st.Valid()
    ensures forall k :: k in RunEffects(st, events, crypt, hash, failonclear, rrActive, wins).forwarded ==> k in MediaKeys
    decreases |events|
  {
    if st.running && events != [] {
      var st' := Next(st, events[0], crypt, hash, failonclear);
      ForwardsOnlyMedia(st', events[1..], crypt, hash, failonclear, rrActive, wins);
      RunEffectsOne(st, events, crypt, hash, failonclear, rrActive, wins);
    }
  }

  class Session {
    /** The stack buffer `passwd[256]`. */
    const passwd: array<byte>
    var len: nat
    var running: bool
    var failure: bool
    var oldc: Color

    /** The stored password hash. */
    const hash: seq<byte>
    const crypt: CryptFn
    /** The configuration flag that keeps the failure colour on an empty buffer. */
    const failonclear: bool
    /** Whether the RandR extension is present (`rr->active`). */
    const rrActive: bool
    /** `locks[screen]->win` for each locked screen. */
    const wins: seq<nat>

    /** Number of `XBell` calls. */
    ghost var bells: nat
    /** Key symbols sent on to the root window. */
    ghost var forwarded: seq<nat>
    /** Screens whose background was reinstalled and cleared, in order. */
    ghost var repainted: seq<nat>
    /** `XResizeWindow` calls: screen, width, height. */
    ghost var resized: seq<(nat, nat, nat)>
    /** Screens raised, in order. */
    ghost var raised: seq<nat>

    ghost predicate Valid()
      reads this
    {
      passwd.Length == BufSize && len < BufSize
    }

    ghost function State(): PwState
      reads this, passwd
    {
      PwState(passwd[..], len, running, failure, oldc)
    }

    /** The five logs together. */
    ghost function Logs(): Effects
      reads this
    {
      Effects(bells, forwarded, repainted, resized, raised)
    }

    /** Entry to `readpw`; `junk` is what the uninitialised buffer holds. */
    constructor (junk: seq<byte>, hash: seq<byte>, crypt: CryptFn, failonclear: bool, rrActive: bool, wins: seq<nat>)
      requires |junk| == BufSize
      ensures Valid() && fresh(passwd)
      ensures State() == Start(junk)
      ensures this.hash == hash && this.crypt == crypt && this.failonclear == failonclear
      ensures this.rrActive == rrActive && this.wins == wins
      ensures bells == 0 && forwarded == [] && repainted == [] && resized == [] && raised == []
    {
      passwd := new byte[BufSize](i requires 0 <= i < BufSize => junk[i]);
      len, running, failure, oldc := 0, true, false, Init;
      this.hash, this.crypt, this.failonclear, this.rrActive, this.wins := hash, crypt, failonclear, rrActive, wins;
      bells, forwarded, repainted, resized, raised := 0, [], [], [], [];
    }

    /** `memset(&passwd, 0, sizeof(passwd))`. */
    method Wipe()
      requires Valid()
      modifies passwd
      ensures passwd[..] == Zeros(BufSize)
    {
      forall i | 0 <= i < passwd.Length {
        passwd[i] := 0;
      }
    }

    /** `memcpy(passwd + len, buf, num)`. */
    method CopyIn(text: seq<byte>)
      requires Valid() && len + |text| <= BufSize
      modifies passwd
      ensures passwd[..] == old(passwd[..len]) + text + old(passwd[len + |text|..])
    {
      forall i | 0 <= i < |text| {
        passwd[len + i] := text[i];
      }
    }

    /** Reinstalls the background of every lock window and clears it. */
    method RepaintAll()
      modifies this`repainted
      ensures repainted == old(repainted) + Range(0, |wins|)
    {
      var screen := 0;
      while screen < |wins|
        invariant 0 <= screen <= |wins|
        invariant repainted == old(repainted) + Range(0, screen)
      {
        RangeSnoc(0, screen);
        repainted := repainted + [screen];
        screen := screen + 1;
      }
    }

    /** Raises every lock window. */
    method RaiseAll()
      modifies this`raised
      ensures raised == old(raised) + Range(0, |wins|)
    {
      var screen := 0;
      while screen < |wins|
        invariant 0 <= screen <= |wins|
        invariant raised == old(raised) + Range(0, screen)
      {
        RangeSnoc(0, screen);
        raised := raised + [screen];
        screen := screen + 1;
      }
    }

    /** The `XK_Return` case: hash the typed password and compare it with the stored hash. */
    method Submit()
      requires Valid() && running
      modifies this, passwd
      ensures Valid()
      ensures var e := Edit(old(State()), Action.Submit, [], crypt, hash);
              State() == e.0 && bells == old(bells) + (if e.1 then 1 else 0)
      ensures forwarded == old(forwarded) && repainted == old(repainted)
      ensures resized == old(resized) && raised == old(raised)
    {
      ghost var before := State();
      passwd[len] := 0;
      assert passwd[..len] == before.Typed();
      var inputhash := crypt(CString(passwd[..len]), hash);
      if inputhash.Some? {
        running := inputhash.value != hash;
      }
      if running {
        bells := bells + 1;
        failure := true;
      }
      Wipe();
      len := 0;
    }

    /** The `XK_Escape` case. */
    method Cancel()
      requires Valid() && running
      modifies this, passwd
      ensures Valid()
      ensures State() == Edit(old(State()), Action.Cancel, [], crypt, hash).0
      ensures bells == old(bells) && forwarded == old(forwarded) && repainted == old(repainted)
      ensures resized == old(resized) && raised == old(raised)
    {
      Wipe();
      len := 0;
    }

    /** The `XK_BackSpace` case. */
    method Erase()
      requires Valid() && running
      modifies this, passwd
      ensures Valid()
      ensures State() == Edit(old(State()), Action.Erase, [], crypt, hash).0
      ensures bells == old(bells) && forwarded == old(forwarded) && repainted == old(repainted)
      ensures resized == old(resized) && raised == old(raised)
    {
      if len > 0 {
        len := len - 1;
        passwd[len] := 0;
      }
    }

    /** The `default` case: append the key's text when it is acceptable. */
    method Append(text: seq<byte>)
      requires Valid() && running
      modifies this, passwd
      ensures Valid()
      ensures State() == Edit(old(State()), Action.Type, text, crypt, hash).0
      ensures bells == old(bells) && forwarded == old(forwarded) && repainted == old(repainted)
      ensures resized == old(resized) && raised == old(raised)
    {
      if Accepts(len, text) {
        CopyIn(text);
        len := len + |text|;
      }
    }

    /** The colour update after a handled key: repaint every window when the colour changed. */
    method Recolor()
      requires Valid()
      modifies this`oldc, this`repainted
      ensures var color := ColorOf(len, failure, failonclear);
              var repaint := running && old(oldc) != color;
              && oldc == (if repaint then color else old(oldc))
              && repainted == old(repainted) + (if repaint then Range(0, |wins|) else [])
    {
      var color := ColorOf(len, failure, failonclear);
      if running && oldc != color {
        RepaintAll();
        oldc := color;
      }
    }

    /** The `switch` on the key symbol, for a key that is not skipped. */
    method Dispatch(ksym: nat, a: Action, text: seq<byte>)
      requires Valid() && running && a != Discard
      modifies this, passwd
      ensures Valid()
      ensures var e := Edit(old(State()), a, text, crypt, hash);
              && State() == e.0
              && bells == old(bells) + (if e.1 then 1 else 0)
              && forwarded == old(forwarded) + (if a == Forward then [ksym] else [])
      ensures repainted == old(repainted) && resized == old(resized) && raised == old(raised)
    {
      match a {
        case Forward => forwarded := forwarded + [ksym];
        case Submit => Submit();
        case Cancel => Cancel();
        case Erase => Erase();
        case Type => Append(text);
      }
    }

    /** The body of the loop for a `KeyPress` event. */
    method HandleKey(ksym: nat, text: seq<byte>)
      requires Valid() && running
      modifies this, passwd
      ensures Valid()
      ensures var r := Step(old(State()), ksym, text, crypt, hash, failonclear);
              && State() == r.st
              && bells == old(bells) + (if r.bell then 1 else 0)
              && forwarded == old(forwarded) + (if r.forward then [ksym] else [])
              && repainted == old(repainted) + (if r.repaint then Range(0, |wins|) else [])
      ensures resized == old(resized) && raised == old(raised)
    {
      var a := Classify(ksym);
      if a == Discard {
        return;
      }
      Dispatch(ksym, a, text);
      Recolor();
    }

    /** The body of the loop for any event. */
    method HandleEvent(ev: Event)
      requires Valid() && running
      modifies this, passwd
      ensures Valid()
      ensures State() == Next(old(State()), ev, crypt, hash, failonclear)
      ensures Logs() == Then(old(Logs()), EventEffects(old(State()), ev, crypt, hash, failonclear, rrActive, wins))
    {
      match ev {
        case KeyPress(k, t) =>
          HandleKey(k, t);
        case ScreenChange(window, width, height, rotation) =>
          if rrActive {
            var idx := FindScreen(wins, window);
            if idx.Some? {
              FirstIndexIs(wins, window, idx.value);
              var d := ResizeDims(width, height, rotation);
              resized := resized + [(idx.value, d.0, d.1)];
            }
          } else {
            RaiseAll();
          }
        case OtherEvent =>
          RaiseAll();
      }
    }

    /** The loop `while (running && !XNextEvent(dpy, &ev))` over the queue `events`. */
    method Run(events: seq<Event>) returns (consumed: nat)
      requires Valid() && running
      modifies this, passwd
      ensures Valid()
      ensures (State(), consumed) == ReadPw.Run(old(State()), events, crypt, hash, failonclear)
      ensures Logs() == Then(old(Logs()), RunEffects(old(State()), events, crypt, hash, failonclear, rrActive, wins))
    {
      consumed := 0;
      assert events[consumed..] == events;
      while running && consumed < |events|
        invariant Valid() && consumed <= |events|
        invariant ReadPw.Run(old(State()), events, crypt, hash, failonclear).0
                  == ReadPw.Run(State(), events[consumed..], crypt, hash, failonclear).0
        invariant ReadPw.Run(old(State()), events, crypt, hash, failonclear).1
                  == consumed + ReadPw.Run(State(), events[consumed..], crypt, hash, failonclear).1
        invariant Then(Logs(), RunEffects(State(), events[consumed..], crypt, hash, failonclear, rrActive, wins))
                  == Then(old(Logs()), RunEffects(old(State()), events, crypt, hash, failonclear, rrActive, wins))
        decreases |events| - consumed
      {
        RunStep(old(State()), State(), events, consumed, crypt, hash, failonclear);
        LogsStep(old(Logs()), old(State()), Logs(), State(), events, consumed, crypt, hash, failonclear, rrActive, wins);
        HandleEvent(events[consumed]);
        consumed := consumed + 1;
      }
      assert RunEffects(State(), events[consumed..], crypt, hash, failonclear, rrActive, wins) == NoEffects;
      ThenNone(Logs());
    }
  }

  /** The index of the first occurrence of `x` in `s`. */
  function FirstIndex(s: seq<nat>, x: nat): (i: nat)
    requires x in s
    ensures i < |s| && s[i] == x && forall j :: 0 <= j < i ==> s[j] != x
  {
    if s[0] == x then 0 else 1 + FirstIndex(s[1..], x)
  }

  lemma FirstIndexIs(s: seq<nat>, x: nat, i: nat)
    requires i < |s| && s[i] == x && forall j :: 0 <= j < i ==> s[j] != x
    ensures x in s && FirstIndex(s, x) == i
  {
  }
}
