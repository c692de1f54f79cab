/** The display side of the TFT/MQTT-SN application (tft_mqttsn/main.c): the render
    cursor and geometry that `setup_tft` initialises, and the publish callback
    `on_pub` that paginates each received payload onto the screen. */
module TftMqttsn {
  import opened CSemantics
  import opened Pagination

  /** "MQTT-SN example app" in ASCII, the banner `setup_tft` draws under the logo. */
  const Banner: seq<byte> :=
    [77, 81, 84, 84, 45, 83, 78, 32, 101, 120, 97, 109, 112, 108, 101, 32, 97, 112, 112]

  /** The row of the banner. */
  const BannerRow: int := 80

  /** The process-wide display state: the geometry globals, which `setup_tft` sets
      once to a 20-pixel font, 20 characters per line and 12 lines of screen, the
      cursor `ucg_pos_y`, and the display calls made so far. */
  class Tft {
    const fontHeight: int := 20
    const maxHeight: int := 12 * 20
    const maxWidthChars: int := 20
    var posY: int
    var log: seq<Op>

    /** The geometry as the pagination functions take it. */
    function Geo(): Geometry {
      Geometry(fontHeight, maxHeight, maxWidthChars)
    }

    /** The cursor lies between the top line and one line below the bottom. */
    ghost predicate Valid()
      reads this
    {
      Geo().Valid() && fontHeight <= posY <= maxHeight + fontHeight
    }

    /** `setup_tft`: the screen is cleared, the banner drawn, and the cursor left
        five lines down, below the logo and banner. */
    constructor ()
      ensures Valid()
      ensures posY == 5 * fontHeight
      ensures log == [Clear, Draw(TextX, BannerRow, Banner)]
    {
      log := [Clear];
      log := log + [Draw(TextX, BannerRow, Banner)];
      posY := 5 * fontHeight;
    }

    /** One pass of the loop in `on_pub`: clears the screen and puts the cursor
        back on the top line if it is past the bottom, draws the chunk copied into a
        NUL-terminated buffer one byte longer, and moves the cursor one line down. */
    method DrawChunk(chunk: seq<byte>)
      requires Valid()
      modifies this
      ensures Valid()
      ensures log == old(log) + PassOps(Pass(old(posY) > maxHeight, RowFor(old(posY), Geo()), chunk))
      ensures posY == RowFor(old(posY), Geo()) + fontHeight
    {
      if posY > maxHeight {
        log := log + [Clear];
        posY := fontHeight;
      }
      var subbuff := chunk + [NUL];
      log := log + [Draw(TextX, posY, CString(subbuff))];
      posY := posY + fontHeight;
    }

    /** `on_pub`: draws the payload `mem[..len]` in chunks of `maxWidthChars` bytes,
        one line per chunk, clearing the screen first whenever the cursor is past
        the bottom. `mem` is the memory from the payload's first byte onward: every
        copy reads a whole width, so the last one reads past the payload and the
        memory must extend to `Extent(len, maxWidthChars)`. */
    method OnPub(mem: seq<byte>, len: nat)
      requires Valid()
      requires len <= IntMax && len <= |mem|
      requires Extent(len, maxWidthChars) <= |mem|
      modifies this
      ensures Valid()
      ensures log == old(log) + Ops(mem, Iterations(len, maxWidthChars), old(posY), Geo())
      ensures posY == Cursor(Iterations(len, maxWidthChars), old(posY), Geo())
    {
      ghost var y0 := posY;
      ghost var log0 := log;
      ghost var k: nat := 0;
      var lastPos: nat := 0;
      var lenRemaining: int := len;
      while CRem(lenRemaining, maxWidthChars) > 0
        invariant Valid()
        invariant lastPos == Offset(k, maxWidthChars) && lastPos + lenRemaining == len
        invariant k + Iterations(lenRemaining, maxWidthChars) == Iterations(len, maxWidthChars)
        invariant posY == Cursor(k, y0, Geo())
        invariant log == log0 + Ops(mem, k, y0, Geo())
        decreases lenRemaining + maxWidthChars
      {
        OffsetMonotone(k + 1, Iterations(len, maxWidthChars), maxWidthChars);
        PassStep(mem, k, y0, Geo(), posY, lastPos);
        AppendAssoc(log0, Ops(mem, k, y0, Geo()), PassOps(PassAt(mem, k, y0, Geo())));
        DrawChunk(mem[lastPos .. lastPos + maxWidthChars]);
        lenRemaining := lenRemaining - maxWidthChars;
        lastPos := lastPos + maxWidthChars;
        k := k + 1;
      }
      assert Iterations(lenRemaining, maxWidthChars) == 0;
      assert k == Iterations(len, maxWidthChars);
    }
  }

  /** With 20 characters per line: a 5-byte payload draws one line and a 45-byte
      one three, while an empty payload and a 40-byte one draw nothing. */
  lemma LinesForPayloads()
    ensures Iterations(5, 20) == 1 && Iterations(45, 20) == 3
    ensures Iterations(0, 20) == 0 && Iterations(40, 20) == 0
  {
    IterationsClosedForm(5, 20);
    IterationsClosedForm(45, 20);
    IterationsClosedForm(40, 20);
  }

  // ---------------------------------------------------------------------------
  // The logo drawn by `setup_tft`

  const LogoWidth: int := 96
  const LogoHeight: int := 48

  /** Index of the red byte of pixel (x, y) in the RGB logo bitmap. */
  function LogoOffset(x: int, y: int): int {
    (x + y * LogoWidth) * 3
  }

  /** Every pixel of the 96x48 logo reads its three colour bytes inside the bitmap. */
  lemma LogoOffsetInBounds(x: int, y: int)
    requires 0 <= x < LogoWidth && 0 <= y < LogoHeight
    ensures 0 <= LogoOffset(x, y) && LogoOffset(x, y) + 2 < LogoWidth * LogoHeight * 3
  {
    assert y * LogoWidth <= (LogoHeight - 1) * LogoWidth;
  }

  /** Distinct pixels of the logo read distinct colour bytes. */
  lemma LogoOffsetInjective(x1: int, y1: int, x2: int, y2: int)
    requires 0 <= x1 < LogoWidth && 0 <= y1 < LogoHeight
    requires 0 <= x2 < LogoWidth && 0 <= y2 < LogoHeight
    requires LogoOffset(x1, y1) == LogoOffset(x2, y2)
    ensures x1 == x2 && y1 == y2
  {
    assert x1 + y1 * LogoWidth == x2 + y2 * LogoWidth;
    MulAtLeast(y1 - y2, LogoWidth);
    MulAtLeast(y2 - y1, LogoWidth);
    assert (y1 - y2) * LogoWidth == x2 - x1;
  }
}
