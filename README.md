# slock core, modelled in Dafny

This project models the four pieces of sequential logic in `slock.c`, the
X11 screen locker:

- **The password loop `readpw`** (`keys.dfy`, `readpw.dfy`, `session.dfy`).
  - Key symbols are remapped and classified in `Keys.Classify`: keypad Enter
    and keypad digits are remapped; function, keypad, misc-function, PF and
    private-keypad keys are skipped; media keys are forwarded; Return, Escape
    and BackSpace are handled; every other key types text.
  - `ReadPw` is the loop as pure functions over its local variables:
    - `Edit` is the `switch`;
    - `Step` is one key press including the colour update;
    - `Next` handles one event;
    - `Run` is the loop over an event queue.
  - `LockSession.Session` runs the same machine in place. The 256-byte stack
    buffer is an `array<byte>`, and `len`, `running`, `failure` and `oldc` are
    fields. Each method is proved to move the state exactly as the pure
    functions say.
  - The X requests the loop makes go to ghost logs:
    - bells;
    - keys forwarded to the root window;
    - screens repainted;
    - windows resized;
    - windows raised.
  - `crypt` is a function-valued parameter that may return `None` (NULL).
- **Pixelation** (`pixelate.dfy`).
  - `ComputePixel` is `compute_pixel`: it sums the four byte lanes of a tile
    into 32-bit accumulators, divides each sum by the pixel count, and writes
    the result over the tile.
  - `Pixelate` is the nested loop of `main` that visits the tile grid, with
    edge tiles clipped.
  - Both work in place on an `array<Pixel>`.
- **The grab retry loop of `lockscreen`** (`grab.dfy`). The X server's
  replies to `XGrabPointer` and `XGrabKeyboard` are an oracle indexed by
  device and round.
- **The all-or-nothing lock loop of `main`** (`grab.dfy`). Each screen's
  replies are an oracle of its own.

On an empty buffer the failure colour shows when `failure || failonclear`
holds (`slock.c:179`).

## Model

| member | source | states |
|---|---|---|
| Keys.Remap | slock.c:123-129 | Keypad Enter becomes Return. A keypad digit becomes the main-row digit of the same value. Every other key symbol is left as it is. |
| Keys.Classify | slock.c:123-178 | Return and keypad Enter are exactly the submit keys. Escape is exactly cancel and BackSpace exactly erase. Exactly the ten media keys are forwarded. A keypad digit types like its main-row digit. Every other keypad, function, misc-function, PF or private-keypad key is skipped, and a key is skipped iff its remapped symbol is in those ranges. |
| ReadPw.ColorOf | slock.c:179 | The colour is Input iff `len > 0`. It is Failed iff the buffer is empty and `failure` or `failonclear` holds. It is Init iff the buffer is empty and neither holds. |
| ReadPw.IsCntrl | slock.c:173 | NUL is a control byte. Printable ASCII (32 to 126) is not, and no byte from 128 on is. |
| ReadPw.AcceptsLeavesNul | slock.c:173 | Accepted text is non-empty and leaves `len + num` at most 255, so the NUL stored at `passwd[len]` on Return stays inside the buffer. Text that starts with a control byte is never accepted. |
| ReadPw.CString | slock.c:148-150 | The key handed to `crypt` is the longest NUL-free prefix of the buffer, and the byte after it is NUL. |
| ReadPw.Start | slock.c:109-114 | On entry the typed password is empty, the loop is running, there is no failure and `oldc` is Init, whatever the stack buffer holds. |
| ReadPw.Matches | slock.c:148-155 | The password matches iff `crypt` returns non-NULL and the hash it returns equals the stored hash, as `strcmp` decides. |
| ReadPw.Edit | slock.c:134-178 | The loop stops only on Return with a password whose hash equals the stored hash. The bell rings iff Return meets a mismatch or a NULL hash, and `failure` becomes old `failure` or the bell. Return and Escape zero the whole buffer and reset `len`. BackSpace drops and clears exactly one byte, or does nothing on an empty buffer. Text is appended iff it is non-empty, does not start with a control byte and fits below 256. Otherwise nothing changes, and `len < 256` is kept. |
| ReadPw.Step | slock.c:118-186 | A skipped key changes nothing and has no effect. The key is forwarded iff it is a media key. Otherwise the state is the `Edit` result. For a key that is not skipped, every window is repainted iff the loop still runs and the recomputed colour differs from `oldc`, and `oldc` is updated in exactly that case. For a key that is not skipped, while the loop runs, `oldc` is the colour of the new state afterwards. |
| ReadPw.Next | slock.c:117-204 | One event keeps the state well formed and never clears `failure`. Only a key press changes the state. The loop stops only on a Return whose password matches. |
| ReadPw.Run | slock.c:117-205 | The loop consumes at most the queue. It consumes all of it while still running, and does nothing once stopped. `failure` never goes back to false. |
| ReadPw.RunSplit | slock.c:117 | Running over a prefix that leaves the loop running, then over the rest, is the same as running over the whole queue. |
| ReadPw.UnlockOnlyByPassword | slock.c:147-162 | Whenever the loop stops, the last event it consumed is a Return (or keypad Enter) key press. In the state just before it, the typed password hashed to the stored hash. |
| ReadPw.FailClosed | slock.c:150-159 | When `crypt` always returns NULL, no sequence of events stops the loop. |
| LockSession.ResizeDims | slock.c:191-195 | Width and height are swapped exactly for 90 and 270 degree rotations. |
| LockSession.EventEffects | slock.c:118-204 | One event makes at most one bell, one forwarded key and one resize. Only a key press rings, forwards or repaints. Only the other events resize or raise. |
| LockSession.BellStep | slock.c:147-159 | One event leaves `failure` set iff it was set before or the event rang the bell. |
| LockSession.BellIffFailure | slock.c:156-159 | The loop ends with `failure` set iff it was set on entry or the bell rang at least once. |
| LockSession.ForwardsOnlyMedia | slock.c:135-146 | Only the ten media keys are ever forwarded to the root window. |
| LockSession.FindScreen | slock.c:189-199 | The loop finds the first screen whose window is the event's window, and finds none iff no screen has it. |
| LockSession.Session.constructor | slock.c:109-114 | The object starts in `Start(junk)` with empty logs. |
| LockSession.Session.Wipe | slock.c:160 | `memset` leaves 256 zero bytes. |
| LockSession.Session.CopyIn | slock.c:174 | `memcpy` puts the text at `len` and keeps the bytes before and after it. |
| LockSession.Session.RepaintAll | slock.c:181-184 | Screens 0 to `nscreens - 1` are repainted, in order. |
| LockSession.Session.RaiseAll | slock.c:201-203 | Screens 0 to `nscreens - 1` are raised, in order. |
| LockSession.Session.Submit | slock.c:147-162 | The new state is `Edit` for Return. The bell is logged iff the password did not match. |
| LockSession.Session.Cancel | slock.c:163-166 | The new state is `Edit` for Escape. |
| LockSession.Session.Erase | slock.c:167-171 | The new state is `Edit` for BackSpace. |
| LockSession.Session.Append | slock.c:172-177 | The new state is `Edit` for a text key. |
| LockSession.Session.Recolor | slock.c:179-186 | `oldc` and the repaint log change exactly when the loop runs and the colour changed. |
| LockSession.Session.Dispatch | slock.c:134-178 | The `switch` moves the object to the `Edit` state and logs the bell and the forwarded key. |
| LockSession.Session.HandleKey | slock.c:118-186 | One key press moves the object to `Step`'s state and logs exactly `Step`'s bell, forwarded key and repaints. |
| LockSession.Session.HandleEvent | slock.c:118-204 | The object moves to `Next`'s state, and exactly `EventEffects` is appended to the logs. A key press logs `Step`'s bell, forwarded key and repaints. With RandR active, a screen change resizes the first matching window with the rotation-adjusted size, or logs nothing if none matches. Any other event, or a screen change without RandR, raises every window. |
| LockSession.Session.Run | slock.c:117-205 | The final state and the number of events consumed are those of `ReadPw.Run`. The logs gain exactly `RunEffects`: the effects of each handled event, in order. |
| Grab.Status | slock.c:266-284 | After `n` rounds a device is held iff some reply so far was `GrabSuccess`. Otherwise its status is the reply of the last round. |
| Grab.Hopeless | slock.c:297-301 | After a round, the loop gives up iff a device that was still not held got a reply other than `GrabSuccess` or `AlreadyGrabbed` in that round. |
| Grab.StopRound | slock.c:268-301 | The loop leaves after a round between 1 and 6. No earlier round was decisive, and the round it stops after is decisive unless it is the sixth. |
| Grab.SuccessSticks | slock.c:269-284 | A device that was grabbed stays grabbed in every later round. |
| Grab.AlwaysHeld | slock.c:268-304 | If every reply is `AlreadyGrabbed`, all six rounds run and the screen is not locked. |
| Grab.StopsOnHardFailure | slock.c:297-301 | A reply other than `GrabSuccess` or `AlreadyGrabbed` ends the loop in that round. |
| Grab.RequestsExact | slock.c:269-284 | A device is requested in a round iff it was not grabbed before that round. Every request made was for a device not yet grabbed. |
| Grab.LockScreen | slock.c:265-313 | The loop runs `Rounds(g)` rounds, between 1 and 6. It succeeds iff both devices are grabbed after the last round. The requests it makes are exactly `Requests(g, rounds)`. |
| Grab.LockAll | slock.c:458-473 | Screens are attempted in order, up to and including the first failure. `nlocks` is the length of the locked prefix, and the first screen after it does not lock. `readpw` is entered iff `nlocks == nscreens`, iff every screen locks. |
| Pixelation.Pack | slock.c:320-330 | The four lanes of a pixel fit in one 32-bit word. |
| Pixelation.PackUnpack | slock.c:320-330 | Reading a written pixel back through the union gives the same four lanes. |
| Pixelation.UnpackPack | slock.c:320-330 | Every 32-bit word is the packing of its four lanes. |
| Pixelation.Wrap | slock.c:336-339 | Accumulators stay below 2^32 and are exact while the true sum fits. |
| Pixelation.Add | slock.c:351-354 | Each of the four accumulators stays below 2^32 after adding a pixel, and is exact while the sum fits. |
| Pixelation.NoWrap | slock.c:348-356 | While 255 times the pixel count fits in 32 bits, the wrapped lane sums equal the true sums. |
| Pixelation.LaneFits | slock.c:359-362 | A sum of at most 255 per pixel, divided by the pixel count, is below 256. |
| Pixelation.Lane | slock.c:359-362 | While the lane sum is at most 255 per pixel, the store into `unsigned char` keeps the floor average. |
| Pixelation.Mean | slock.c:359-362 | Each lane whose sum is at most 255 per pixel is written as the floor of the lane's average. |
| Pixelation.FloorMean | slock.c:357-362 | Without wrap-around, each lane written is the floor of that lane's average over the tile. |
| Pixelation.UniformMean | slock.c:357-362 | While 255 times the pixel count fits in 32 bits, a tile of equal pixels averages to that pixel. |
| Pixelation.Tile | slock.c:348-350 | The tile of a `w` by `h` rectangle holds `w * h` pixels. |
| Pixelation.TileFrame | slock.c:348-350 | A tile depends only on the pixels inside its rectangle. |
| Pixelation.ClippedTile | slock.c:344-345 | A clipped tile holds `min(ps, width - x) * min(ps, height - y)` pixels, at least one. |
| Pixelation.SumRow | slock.c:349-355 | The inner loop leaves the accumulators at the wrapped lane sums of what was seen plus the row slice. |
| Pixelation.SumTile | slock.c:348-356 | The summing loops leave the wrapped lane sums of the tile, row by row. |
| Pixelation.FillRow | slock.c:365-367 | The inner loop writes the pixel over one row slice and nothing else. |
| Pixelation.Fill | slock.c:364-368 | The writing loops set exactly the pixels of the rectangle and leave every other pixel alone. |
| Pixelation.ComputePixel | slock.c:334-369 | Exactly the clipped tile at (x, y) is overwritten with the mean of the old tile. Every other pixel is untouched. |
| Pixelation.Origin | slock.c:440-441 | The tile origin of a row or column is at most that row or column and less than `ps` before it. |
| Pixelation.GridOrigin | slock.c:440-441 | Inside the tile that starts at a multiple of `ps`, the tile origin is that multiple. |
| Pixelation.BlockMeanFrame | slock.c:348-362 | A tile's mean depends only on the pixels inside the tile. |
| Pixelation.AfterTile | slock.c:440-444 | Each `compute_pixel` call adds its tile to the finished part, with the mean of the original pixels, because tiles do not overlap. |
| Pixelation.Pixelate | slock.c:440-444 | After the pass, every pixel holds the mean, over the original buffer, of the grid tile containing it. The tiles cover the buffer and the loops terminate for `ps > 0`. |
| Pixelation.BlockMeanIsAverage | slock.c:357-362 | While 255 times the clipped tile's pixel count fits in 32 bits, each lane of a tile's mean is the floor of the true average over the pixels actually in the clipped tile. |
| Pixelation.BlockUniform | slock.c:334-369 | While 255 times the clipped tile's pixel count fits in 32 bits, every tile of a one-colour buffer averages to that colour. |
| Pixelation.PixelatedUniform | slock.c:440-444 | While 255 times the largest tile's pixel count, `min(ps, width) * min(ps, height)`, fits in 32 bits, pixelating a one-colour screen leaves it unchanged. |

## Left out

- X11, XRandR and Imlib2 I/O is not modelled.
  - Left out: window, pixmap and cursor creation; `XMapRaised` and input selection; `XSync`; the screenshot capture and put-back.
  - The requests the loop makes are only logged: bell, forwarded key, repaint, resize, raise.
  - `XClearWindow` after a resize is folded into the resize log entry.
- Events:
  - The event stream is a finite queue of three kinds: key press, RandR screen change, other.
  - An `XNextEvent` failure is the end of the queue.
  - Event-type numbering (`rr->evbase`) is folded into the event kind.
- `XLookupString`:
  - The key's text is a parameter of the key press.
  - Its 32-byte cap on the text is not imposed. The append bound `len + num < 256` is modelled.
- The internals of `crypt`, and the startup self-check `crypt("", hash)`.
  - `crypt` is a parameter.
  - `strcmp` is modelled as sequence equality of the returned and stored hash.
- `gethash`, the user and group lookups, `dontkillme` and privilege dropping are not modelled, because they call the OS's user database and process services. Their own branches are left out with them:
  - `gethash` reads the shadow record when the passwd field is `"x"` (with shadow support), or dies when it is `"*"` (without it) (slock.c:88-101);
  - `dontkillme` ignores a missing control file (`ENOENT`) and dies on any other `fopen` error (slock.c:60-63), with a separate message for `EACCES` at `fclose` (slock.c:65-71);
  - privileges are dropped by `setgroups`, `setgid`, then `setuid`, in that order, dying if any step fails (slock.c:411-419).
- The 100 ms `usleep` between grab rounds (slock.c:303) is not modelled.
- `die` and the error printing are not modelled.
- Argument parsing is not modelled.
- `malloc` and `calloc` failure, and the `NULL` guards at the top of `lockscreen`, are not modelled. The oracle of a screen stands for the whole `lockscreen` outcome.
- The colour allocation loop is not modelled.
  - A repaint always reinstalls `bgmap`, whatever the colour.
  - So the repaint log records screens, not colours.
- Pixelation.Pixelate: `pixel_size` is a configuration constant and is required to be positive. With 0 the source divides by zero and never advances.
- Pixelation.PixelatedUniform: stated only when `min(ps, width) * min(ps, height)`, the largest tile on the screen, is at most 16,843,009 pixels, so that the 32-bit lane sums cannot wrap. In a larger tile the sums can wrap, and then a one-colour tile can come out a different colour (all lanes 255 over 16,843,010 pixels average to 0). For example, `pixel_size` 5000 on a 7680 by 4320 screen gives tiles of 21.6 million pixels. Pixelation.UniformMean, Pixelation.BlockUniform and Pixelation.BlockMeanIsAverage carry the same bound for the one tile they describe.
- Pixelation.Pack: the lane order inside the 32-bit word is modelled with `a` as the low byte. The averaging treats all lanes alike, so byte order does not affect what is written.
- Pixelation.ComputePixel: the `unsigned int` index `width * (y + j) + (x + i)` is taken as exact. The buffer is assumed to be indexable within 32 bits.
- ReadPw.IsCntrl: `iscntrl` is taken in the C locale, since slock never calls `setlocale`. Bytes 128 to 255, which reach `iscntrl` as negative `char` values, are not control characters.
