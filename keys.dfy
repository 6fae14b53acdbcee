/**
 * Key symbols and their classification, as the password loop of slock sees
 * them. The numeric values are those of the X11 headers keysymdef.h and
 * XF86keysym.h; the range predicates are the Is...Key macros of Xutil.h.
 */
module Keys {

  const XK_BackSpace: nat := 0xff08
  const XK_Return: nat := 0xff0d
  const XK_Escape: nat := 0xff1b
  const XK_0: nat := 0x30
  const XK_KP_Enter: nat := 0xff8d
  const XK_KP_0: nat := 0xffb0
  const XK_KP_9: nat := 0xffb9

  const XF86XK_MonBrightnessUp: nat := 0x1008ff02
  const XF86XK_MonBrightnessDown: nat := 0x1008ff03
  const XF86XK_AudioLowerVolume: nat := 0x1008ff11
  const XF86XK_AudioMute: nat := 0x1008ff12
  const XF86XK_AudioRaiseVolume: nat := 0x1008ff13
  const XF86XK_AudioPlay: nat := 0x1008ff14
  const XF86XK_AudioStop: nat := 0x1008ff15
  const XF86XK_AudioPrev: nat := 0x1008ff16
  const XF86XK_AudioNext: nat := 0x1008ff17
  const XF86XK_AudioMicMute: nat := 0x1008ffb2

  /** The media and brightness keys that are forwarded to the root window. */
  const MediaKeys: set<nat> := {
    XF86XK_AudioPlay, XF86XK_AudioStop, XF86XK_AudioPrev, XF86XK_AudioNext,
    XF86XK_AudioRaiseVolume, XF86XK_AudioLowerVolume, XF86XK_AudioMute,
    XF86XK_AudioMicMute, XF86XK_MonBrightnessDown, XF86XK_MonBrightnessUp }

  predicate IsKeypadKey(k: nat) { 0xff80 <= k <= 0xffbd }           // XK_KP_Space .. XK_KP_Equal
  predicate IsFunctionKey(k: nat) { 0xffbe <= k <= 0xffe0 }         // XK_F1 .. XK_F35
  predicate IsMiscFunctionKey(k: nat) { 0xff60 <= k <= 0xff6b }     // XK_Select .. XK_Break
  predicate IsPFKey(k: nat) { 0xff91 <= k <= 0xff94 }               // XK_KP_F1 .. XK_KP_F4
  predicate IsPrivateKeypadKey(k: nat) { 0x11000000 <= k <= 0x1100ffff }

  predicate IsKeypadDigit(k: nat) { XK_KP_0 <= k <= XK_KP_9 }

  /** Keypad Enter becomes Return and keypad digits become the main-row digits. */
  function Remap(k: nat): (r: nat)
    ensures k == XK_KP_Enter ==> r == XK_Return
    ensures IsKeypadDigit(k) ==> XK_0 <= r <= XK_0 + 9 && r - XK_0 == k - XK_KP_0
    ensures k != XK_KP_Enter && !IsKeypadDigit(k) ==> r == k
  {
    if IsKeypadKey(k) then
      if k == XK_KP_Enter then XK_Return
      else if IsKeypadDigit(k) then k - XK_KP_0 + XK_0
      else k
    else k
  }

  /** A key the loop skips with `continue`: no buffer, flag or colour update. */
  predicate IsIgnored(k: nat)
  {
    IsFunctionKey(k) || IsKeypadKey(k) || IsMiscFunctionKey(k) || IsPFKey(k) || IsPrivateKeypadKey(k)
  }

  /** What the password loop does with a key press. */
  datatype Action =
    | Discard   // skipped entirely
    | Forward   // sent on to the root window
    | Submit    // verify the buffer
    | Cancel    // clear the buffer
    | Erase     // delete the last byte
    | Type      // append the key's text, if acceptable

  /** The action for a key press with key symbol `ksym`, after the keypad remapping. */
  function Classify(ksym: nat): (a: Action)
    ensures a == Submit <==> ksym == XK_Return || ksym == XK_KP_Enter
    ensures a == Cancel <==> ksym == XK_Escape
    ensures a == Erase <==> ksym == XK_BackSpace
    ensures a == Forward <==> ksym in MediaKeys
    ensures IsKeypadDigit(ksym) ==> a == Type && a == Classify(ksym - XK_KP_0 + XK_0)
    ensures IsKeypadKey(ksym) && ksym != XK_KP_Enter && !IsKeypadDigit(ksym) ==> a == Discard
    ensures IsFunctionKey(ksym) || IsMiscFunctionKey(ksym) || IsPFKey(ksym) || IsPrivateKeypadKey(ksym)
            ==> a == Discard
    ensures a == Discard <==> IsIgnored(Remap(ksym))
  {
    var k := Remap(ksym);
    if IsIgnored(k) then Discard
    else if k in MediaKeys then Forward
    else if k == XK_Return then Submit
    else if k == XK_Escape then Cancel
    else if k == XK_BackSpace then Erase
    else Type
  }
}
