# TFT pagination of MQTT-SN publications

A Dafny model of the display side of the `tft_mqttsn` application. That application
subscribes to an MQTT-SN topic and draws the payloads it receives on an ILI9341 TFT
screen through the ucg graphics library, unless a payload's length is a whole number
of lines.

The model covers three parts of `tft_mqttsn/main.c`:

- the publish callback `on_pub`, which cuts the payload into lines of
  `ucg_max_width_chars` bytes and draws one line per font height;
- the process-wide render cursor `ucg_pos_y`: when the cursor has gone past
  `ucg_max_height` the callback clears the screen and starts again at the top line;
- `setup_tft`, which fixes the geometry, clears the screen, draws the logo and the
  banner, and leaves the cursor five lines down.

The project has three modules:

- `CSemantics` (`c_semantics.dfy`) holds the C semantics the callback relies on:
  - bytes;
  - the `int` remainder operator, which truncates toward zero
    (`-15 % 20 == -15` in C, whereas Dafny's Euclidean `%` gives 5);
  - NUL-terminated strings, as `ucg_DrawString` reads them.
- `Pagination` (`pagination.dfy`) is a value-level description of the loop in
  `on_pub`. For a geometry, a starting cursor `y0` and the memory `mem` from the
  payload's first byte onward, it defines the following:
  - `Iterations`: how many passes the loop makes;
  - `Offset` and `Cursor`: `last_pos` and `ucg_pos_y` after `k` passes;
  - `PassAt`: pass `k`, meaning whether it cleared, the row it drew at and the bytes
    it copied;
  - `Ops`: the display calls of the first `n` passes.

  The lemmas state what the code promises about these.
- `TftMqttsn` (`tft_mqttsn.dfy`) holds the imperative model:
  - class `Tft` stands for the globals. Its fields are the geometry, the cursor
    `posY`, and `log`, the display calls made so far (`Clear` for `ucg_ClearScreen`
    and `Draw(x, y, text)` for `ucg_DrawString`).
  - its constructor is `setup_tft`;
  - `OnPub` is `on_pub`, with the same `while` loop over `len_remaining` and
    `last_pos`;
  - `DrawChunk` is the body of that loop.

  `OnPub` is proved to append exactly `Ops(mem, Iterations(len, w), y0, g)` to the
  log and to leave the cursor at `Cursor(Iterations(len, w), y0, g)`. It also keeps
  the invariant `fontHeight <= posY <= maxHeight + fontHeight`.

Four behaviours of the loop are easy to misread; the model follows the code:

- **Exact multiples draw nothing.** The loop runs while `len_remaining % w > 0`. A
  payload whose length is a whole number of widths, the empty one included, draws
  nothing.
- **Other lengths draw ceil(len / w) lines.** Each pass subtracts `w` until the
  remainder is negative, and the C remainder of a negative number is not positive.
  So a 5-byte payload draws one line and a 45-byte payload draws three.
- **The copy is not clamped.** `memcpy` always copies `w` bytes. For the last line
  it reads `w - len % w` bytes past the payload. The model makes this visible:
  - `OnPub` requires `mem` to hold `Extent(len, w)` bytes;
  - `ReadOverrun` shows that `Extent` goes past `len`.
- **A clear resets to the top line.** The cursor goes back to `ucg_font_height`,
  not to the five-line offset used at start-up.

## Model

| member | source | states |
|---|---|---|
| CSemantics.CRem | tft_mqttsn/main.c:87 | the C remainder of `a` by a positive `b` has the sign of `a` and is smaller than `b` in magnitude |
| CSemantics.CDivRem | tft_mqttsn/main.c:87 | truncated quotient times divisor plus the C remainder gives back the dividend |
| CSemantics.CRemPositive | tft_mqttsn/main.c:87 | the loop guard `len_remaining % w > 0` holds if and only if `len_remaining` is positive and not a multiple of `w` |
| CSemantics.CString | tft_mqttsn/main.c:97-101 | the string the driver draws from a buffer is the prefix before the first NUL: it has no NUL, and the buffer has a NUL right after it unless it fills the whole buffer |
| CSemantics.TerminatedStringFits | tft_mqttsn/main.c:95-97 | a buffer whose last byte is NUL holds a string shorter than the buffer, so a `w + 1` byte buffer holds at most `w` characters |
| CSemantics.CStringOfTerminated | tft_mqttsn/main.c:95-101 | a chunk without NUL bytes, followed by the terminating NUL, is drawn exactly as copied |
| Pagination.IterationsClosedForm | tft_mqttsn/main.c:86-99 | the loop makes no pass when the length is not positive or is a multiple of `w`, and `len / w + 1` (ceil(len / w)) passes otherwise |
| Pagination.ExactMultipleDrawsNothing | tft_mqttsn/main.c:86-87 | a payload whose length is a multiple of `w`, including the empty one, makes no pass, produces no display call and leaves the cursor unchanged |
| Pagination.ReadOverrun | tft_mqttsn/main.c:96-99 | the copies read `Extent(len, w)` bytes: none for a multiple of `w`, otherwise `len + (w - len % w)`, strictly past the payload |
| Pagination.OffsetIsProduct | tft_mqttsn/main.c:85-99 | at the start of pass `k`, `last_pos` is `k * w` |
| Pagination.PassesAt | tft_mqttsn/main.c:85-103 | there are `n` passes and pass `k` is `PassAt(k)`: it clears exactly when the cursor after `k` passes is past `maxHeight`, draws at the top line after a clear and at the cursor otherwise, and copies the `w` bytes from offset `k * w` |
| Pagination.ChunkWidths | tft_mqttsn/main.c:96 | every pass copies exactly `w` bytes |
| Pagination.PassChunk | tft_mqttsn/main.c:96-99 | pass `k` copies bytes `[k * w, k * w + w)` of the memory, which lie inside it |
| Pagination.PassChunks | tft_mqttsn/main.c:85-99 | the `n` passes copy consecutive whole widths from the start of the payload: pass `k` copies `[k * w, k * w + w)` |
| Pagination.RowsBetweenClears | tft_mqttsn/main.c:89-102 | a pass that clears draws at `fontHeight`; a pass that does not clear draws exactly one font height below the previous pass |
| Pagination.CursorOnScreen | tft_mqttsn/main.c:89-102 | if the cursor starts between `fontHeight` and `maxHeight + fontHeight`, it stays there after any number of passes |
| Pagination.RowsOnScreen | tft_mqttsn/main.c:89-102 | with the cursor starting in that range, every row drawn lies between `fontHeight` and `maxHeight` |
| Pagination.OpsOfPasses | tft_mqttsn/main.c:84-103 | the display calls of the first `n` passes are each pass's optional clear followed by its draw, pass after pass |
| Pagination.ClearsFirstPastBottom | tft_mqttsn/main.c:89-92 | with the cursor past `maxHeight`, a callback that draws anything first clears the screen and then draws its first line at `fontHeight` |
| Pagination.EmitDraws | tft_mqttsn/main.c:95-101 | the strings drawn for a sequence of `w`-byte passes are at the left margin, within the passes' rows and at most `w` bytes long |
| Pagination.Paginates | tft_mqttsn/main.c:84-103 | for one payload: ceil(len / w) passes unless `len` is a multiple of `w` (then none), pass `k` copies `[k * w, k * w + w)`, every draw is at `x = 10`, on screen and at most `w` bytes long, and the cursor stays in range |
| TftMqttsn.Tft.constructor | tft_mqttsn/main.c:121-144 | `setup_tft` clears the screen, draws the banner "MQTT-SN example app" at row 80 and leaves the cursor at `5 * fontHeight`, inside the invariant range |
| TftMqttsn.Tft.DrawChunk | tft_mqttsn/main.c:88-102 | one loop body: it appends exactly the clear (when the cursor is past `maxHeight`) and the draw of one pass, and leaves the cursor one line below the row drawn |
| TftMqttsn.Tft.OnPub | tft_mqttsn/main.c:73-104 | `on_pub` appends exactly `Ops(mem, Iterations(len, w), y0, g)` to the display calls, leaves the cursor at `Cursor(Iterations(len, w), y0, g)` and keeps `fontHeight <= posY <= maxHeight + fontHeight` |
| TftMqttsn.LinesForPayloads | tft_mqttsn/main.c:86-98 | with 20 characters per line, a 5-byte payload draws one line and a 45-byte payload three; an empty payload and a 40-byte payload draw none |
| TftMqttsn.LogoOffsetInBounds | tft_mqttsn/main.c:130-136 | for every pixel of the 96x48 logo, the three colour bytes at `(x + y*96)*3` lie inside the 96*48*3-byte bitmap |
| TftMqttsn.LogoOffsetInjective | tft_mqttsn/main.c:130-136 | distinct logo pixels read distinct colour bytes |

## Left out

- `emcute_thread`, `setup_mqtt` and `main` (tft_mqttsn/main.c:66-71 and 153-225) are not modelled. They are thin wrappers over the MQTT-SN client, address parsing, thread creation and timers, and none of those are part of this model.
- The `printf` echo of the topic and payload in `on_pub` (tft_mqttsn/main.c:77-82) is not modelled: it is diagnostic output only.
- The SPI and ucg initialisation, rotation, font, colour and per-pixel drawing in `setup_tft` are not modelled. This also covers the pixel calls of the logo loop: only its index arithmetic is modelled, by the two logo lemmas. `logo.h` is not part of this model.
- `ucg_ClearScreen` and `ucg_DrawString` become `Clear` and `Draw` entries in the log. What they do to pixels is not modelled.
- Concurrency is not modelled. `on_pub` runs on the MQTT-SN thread, and the model treats it as a sequential method with no locking.
- TftMqttsn.Tft.OnPub: the `size_t` to `int` conversion of `len` is not modelled; `len <= IntMax` is a precondition.
- TftMqttsn.Tft.OnPub: `len_remaining` and `last_pos` are unbounded integers. C's `last_pos += w` on the last pass overflows when `Extent(len, w) > IntMax`, that is when `len % w != 0` and `len > IntMax - IntMax % w` (2147483641 to 2147483647 for w = 20); the model does not show that.
- TftMqttsn.Tft: the geometry constants hold the values `setup_tft` assigns, 20, 240 and 20. The C globals are zero until `setup_tft` runs, and a publication before that would divide by zero in the loop guard. The model does not cover that state. The `Pagination` lemmas hold for any valid geometry.
