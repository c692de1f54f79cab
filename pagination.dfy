/** The text pagination performed by the MQTT-SN publish callback `on_pub`
    (tft_mqttsn/main.c): a payload is cut into chunks of `maxWidthChars` bytes, each
    drawn one font height below the previous one, and the screen is cleared before a
    chunk once the cursor has moved past the bottom. The functions here give the
    passes of that loop as values; the class in module TftMqttsn runs the loop
    itself and is proved to make exactly these passes. */
module Pagination {
  import opened CSemantics

  /** The display geometry fixed by `setup_tft`. */
  datatype Geometry = Geometry(fontHeight: int, maxHeight: int, maxWidthChars: int)
  {
    /** Geometry for which the cursor stays on screen: a line fits below the top. */
    predicate Valid() {
      0 < fontHeight <= maxHeight && 0 < maxWidthChars
    }
  }

  /** Left margin of every string drawn by the application. */
  const TextX: int := 10

  /** The display calls the application makes: `ucg_ClearScreen` and
      `ucg_DrawString(x, y, text)`. */
  datatype Op = Clear | Draw(x: int, y: int, text: seq<byte>)

  /** One pass of the loop in `on_pub`: whether it cleared the screen first, the row
      it drew at, and the bytes it copied into its line buffer. */
  datatype Pass = Pass(cleared: bool, row: int, chunk: seq<byte>)

  /** How many passes the loop `while (len_remaining % w > 0)` makes, each taking
      `w` off `len_remaining`, when it starts with `remaining`. */
  function Iterations(remaining: int, w: int): nat
    requires w > 0
    decreases remaining + w
  {
    if CRem(remaining, w) > 0 then 1 + Iterations(remaining - w, w) else 0
  }

  /** The offset `last_pos` after `k` passes, each moving it on by `w`. */
  function Offset(k: nat, w: nat): nat {
    if k == 0 then 0 else Offset(k - 1, w) + w
  }

  /** How many bytes from the start of the payload the copies of the loop read. */
  function Extent(len: int, w: int): nat
    requires w > 0
  {
    Offset(Iterations(len, w), w)
  }

  /** The row a chunk is drawn at when the cursor stands at `y`: the top line after
      a clear if the cursor is past the bottom, otherwise the cursor itself. */
  function RowFor(y: int, g: Geometry): int {
    if y > g.maxHeight then g.fontHeight else y
  }

  /** The cursor `ucg_pos_y` after `k` passes of the loop, started at `y0`: each pass
      draws at `RowFor` of the cursor and leaves it one font height lower. */
  function Cursor(k: nat, y0: int, g: Geometry): int {
    if k == 0 then y0 else RowFor(Cursor(k - 1, y0, g), g) + g.fontHeight
  }

  /** Pass `k` of the loop (counting from 0), started with the cursor at `y0`: it
      clears when the cursor is past the bottom, draws at `RowFor` of the cursor, and
      copies the `w` bytes at offset `k * w` of `mem`, the memory from the payload's
      first byte onward (bytes beyond the payload included). */
  function PassAt(mem: seq<byte>, k: nat, y0: int, g: Geometry): Pass
    requires g.maxWidthChars > 0 && Offset(k, g.maxWidthChars) + g.maxWidthChars <= |mem|
  {
    var y := Cursor(k, y0, g);
    var at := Offset(k, g.maxWidthChars);
    Pass(y > g.maxHeight, RowFor(y, g), mem[at .. at + g.maxWidthChars])
  }

  /** The first `n` passes of the loop, in order. */
  function Passes(mem: seq<byte>, n: nat, y0: int, g: Geometry): seq<Pass>
    requires g.maxWidthChars > 0 && Offset(n, g.maxWidthChars) <= |mem|
    decreases n
  {
    if n == 0 then []
    else
      Passes(mem, n - 1, y0, g) + [PassAt(mem, n - 1, y0, g)]
  }

  /** The display calls of one pass: the chunk is copied into a buffer one byte
      longer and NUL-terminated, and the driver draws what precedes the first NUL. */
  function PassOps(p: Pass): seq<Op> {
    (if p.cleared then [Clear] else []) + [Draw(TextX, p.row, CString(p.chunk + [NUL]))]
  }

  /** The display calls of a sequence of passes, in order. */
  function Emit(ps: seq<Pass>): seq<Op> {
    if ps == [] then [] else Emit(ps[..|ps| - 1]) + PassOps(ps[|ps| - 1])
  }

  /** The display calls of the first `n` passes of the loop, in order. */
  function Ops(mem: seq<byte>, n: nat, y0: int, g: Geometry): seq<Op>
    requires g.maxWidthChars > 0 && Offset(n, g.maxWidthChars) <= |mem|
  {
    if n == 0 then [] else Ops(mem, n - 1, y0, g) + PassOps(PassAt(mem, n - 1, y0, g))
  }

  /** Every pass of `t` drew at a row between `lo` and `hi`. */
  ghost predicate RowsWithin(t: seq<Pass>, lo: int, hi: int) {
    forall k :: 0 <= k < |t| ==> lo <= t[k].row <= hi
  }

  /** Every string among `ops` is drawn at the left margin, at a row between `lo`
      and `hi`, and is at most `w` bytes long. */
  ghost predicate DrawsWithin(ops: seq<Op>, w: int, lo: int, hi: int) {
    forall i :: 0 <= i < |ops| && ops[i].Draw? ==>
      ops[i].x == TextX && lo <= ops[i].y <= hi && |ops[i].text| <= w
  }

  // ---------------------------------------------------------------------------
  // How many passes, and how far the copies read

  /** The loop makes no pass when the remaining length is a whole number of widths
      (zero included) or not positive, and ceil(remaining / w) passes otherwise. */
  lemma {:induction false} IterationsClosedForm(remaining: int, w: int)
    requires w > 0
    ensures Iterations(remaining, w) ==
              if remaining <= 0 || remaining % w == 0 then 0 else remaining / w + 1
    decreases remaining + w
  {
    CRemPositive(remaining, w);
    if remaining > 0 && remaining % w != 0 {
      var rest := remaining - w;
      CRemPositive(rest, w);
      ShiftDivMod(remaining, w);
      if rest > 0 {
        IterationsClosedForm(rest, w);
      } else {
        DivModUnique(remaining, w, 0, remaining);
      }
    }
  }

  /** A payload whose length is a whole number of widths, the empty one included,
      draws nothing, never clears and leaves the cursor where it was. */
  lemma ExactMultipleDrawsNothing(mem: seq<byte>, len: nat, y0: int, g: Geometry)
    requires g.maxWidthChars > 0
    requires len % g.maxWidthChars == 0
    ensures Iterations(len, g.maxWidthChars) == 0 && Extent(len, g.maxWidthChars) == 0
    ensures Ops(mem, Iterations(len, g.maxWidthChars), y0, g) == []
    ensures Cursor(Iterations(len, g.maxWidthChars), y0, g) == y0
  {
    CRemPositive(len, g.maxWidthChars);
  }

  /** The copies of the last pass run past the payload: when `len` is not a whole
      number of widths they read `w - len % w` bytes beyond its end. */
  lemma ReadOverrun(len: nat, w: int)
    requires w > 0
    ensures len % w == 0 ==> Extent(len, w) == 0
    ensures len % w != 0 ==> Extent(len, w) == len + (w - len % w) && Extent(len, w) > len
  {
    IterationsClosedForm(len, w);
    OffsetIsProduct(Iterations(len, w), w);
    if len % w != 0 {
      assert (len / w + 1) * w == len - len % w + w by {
        assert len == (len / w) * w + len % w;
      }
    }
  }

  // ---------------------------------------------------------------------------
  // What each pass copies and where it draws

  /** The passes are the `PassAt` of each count in turn: pass `k` copies the bytes
      `[k * w, k * w + w)`, clears exactly when the cursor after `k` passes is past
      the bottom, and draws at the top line after a clear and at the cursor otherwise. */
  lemma {:induction false} PassesAt(mem: seq<byte>, n: nat, y0: int, g: Geometry)
    requires g.maxWidthChars > 0 && Offset(n, g.maxWidthChars) <= |mem|
    ensures |Passes(mem, n, y0, g)| == n
    ensures forall k :: 0 <= k < n ==>
      Offset(k, g.maxWidthChars) + g.maxWidthChars <= |mem| &&
      Passes(mem, n, y0, g)[k] == PassAt(mem, k, y0, g)
  {
    PassesLength(mem, n, y0, g);
    forall k | 0 <= k < n
      ensures Offset(k, g.maxWidthChars) + g.maxWidthChars <= |mem| &&
              Passes(mem, n, y0, g)[k] == PassAt(mem, k, y0, g)
    {
      PassIndex(mem, n, k, y0, g);
    }
  }

  /** There are as many passes as asked for. */
  lemma {:induction false} PassesLength(mem: seq<byte>, n: nat, y0: int, g: Geometry)
    requires g.maxWidthChars > 0 && Offset(n, g.maxWidthChars) <= |mem|
    ensures |Passes(mem, n, y0, g)| == n
  {
    if n > 0 {
      PassesLength(mem, n - 1, y0, g);
    }
  }

  /** Later passes leave pass `k` as it was. */
  lemma {:induction false} PassIndex(mem: seq<byte>, n: nat, k: nat, y0: int, g: Geometry)
    requires g.maxWidthChars > 0 && Offset(n, g.maxWidthChars) <= |mem|
    requires k < n
    ensures Offset(k, g.maxWidthChars) + g.maxWidthChars <= |mem|
    ensures |Passes(mem, n, y0, g)| == n && Passes(mem, n, y0, g)[k] == PassAt(mem, k, y0, g)
    decreases n
  {
    PassesLength(mem, n, y0, g);
    if k < n - 1 {
      PassIndex(mem, n - 1, k, y0, g);
    }
  }

  /** After `k` passes the offset is `k * w`. */
  lemma {:induction false} OffsetIsProduct(k: nat, w: nat)
    ensures Offset(k, w) == k * w
  {
    if k > 0 {
      OffsetIsProduct(k - 1, w);
      assert k * w == (k - 1) * w + w;
    }
  }

  /** The offset never goes back: a later pass starts no earlier. */
  lemma {:induction false} OffsetMonotone(j: nat, k: nat, w: nat)
    requires j <= k
    ensures Offset(j, w) <= Offset(k, w)
    decreases k
  {
    if j < k {
      OffsetMonotone(j, k - 1, w);
    }
  }

  /** Every pass copies a whole width. */
  lemma ChunkWidths(mem: seq<byte>, n: nat, y0: int, g: Geometry)
    requires g.maxWidthChars > 0 && Offset(n, g.maxWidthChars) <= |mem|
    ensures var t := Passes(mem, n, y0, g);
      forall k :: 0 <= k < |t| ==> |t[k].chunk| == g.maxWidthChars
  {
    PassesAt(mem, n, y0, g);
  }

  /** Pass `k` copies exactly the bytes `[k * w, k * w + w)` of the memory. */
  lemma PassChunk(mem: seq<byte>, k: nat, y0: int, g: Geometry)
    requires g.maxWidthChars > 0 && Offset(k, g.maxWidthChars) + g.maxWidthChars <= |mem|
    ensures var w := g.maxWidthChars;
      k * w + w <= |mem| && PassAt(mem, k, y0, g).chunk == mem[k * w .. k * w + w]
  {
    OffsetIsProduct(k, g.maxWidthChars);
  }

  /** The passes copy the payload in consecutive whole widths from its start. */
  lemma PassChunks(mem: seq<byte>, n: nat, y0: int, g: Geometry)
    requires g.maxWidthChars > 0 && Offset(n, g.maxWidthChars) <= |mem|
    ensures var w := g.maxWidthChars;
      |Passes(mem, n, y0, g)| == n &&
      forall k :: 0 <= k < n ==>
        k * w + w <= |mem| && Passes(mem, n, y0, g)[k].chunk == mem[k * w .. k * w + w]
  {
    PassesAt(mem, n, y0, g);
    forall k | 0 <= k < n
      ensures k * g.maxWidthChars + g.maxWidthChars <= |mem|
      ensures Passes(mem, n, y0, g)[k].chunk
           == mem[k * g.maxWidthChars .. k * g.maxWidthChars + g.maxWidthChars]
    {
      PassChunk(mem, k, y0, g);
    }
  }

  /** Between two clears the rows drawn go down by exactly one font height, and a
      clear always puts the next row at the top line. */
  lemma RowsBetweenClears(mem: seq<byte>, n: nat, y0: int, g: Geometry)
    requires g.maxWidthChars > 0 && Offset(n, g.maxWidthChars) <= |mem|
    ensures var t := Passes(mem, n, y0, g);
      |t| == n &&
      (forall k :: 0 <= k < n && t[k].cleared ==> t[k].row == g.fontHeight) &&
      (forall k :: 0 < k < n && !t[k].cleared ==> t[k].row == t[k - 1].row + g.fontHeight)
  {
    PassesAt(mem, n, y0, g);
  }

  /** With the cursor between the top line and one line below the bottom, it stays
      there after any number of passes. */
  lemma {:induction false} CursorOnScreen(k: nat, y0: int, g: Geometry)
    requires g.Valid()
    requires g.fontHeight <= y0 <= g.maxHeight + g.fontHeight
    ensures g.fontHeight <= Cursor(k, y0, g) <= g.maxHeight + g.fontHeight
  {
    if k > 0 {
      CursorOnScreen(k - 1, y0, g);
    }
  }

  /** With the cursor between the top line and one line below the bottom, every row
      drawn lies between the top line and the bottom. */
  lemma RowsOnScreen(mem: seq<byte>, n: nat, y0: int, g: Geometry)
    requires g.Valid() && Offset(n, g.maxWidthChars) <= |mem|
    requires g.fontHeight <= y0 <= g.maxHeight + g.fontHeight
    ensures RowsWithin(Passes(mem, n, y0, g), g.fontHeight, g.maxHeight)
  {
    PassesAt(mem, n, y0, g);
    forall k | 0 <= k < n
      ensures g.fontHeight <= Passes(mem, n, y0, g)[k].row <= g.maxHeight
    {
      CursorOnScreen(k, y0, g);
    }
  }

  // ---------------------------------------------------------------------------
  // The display calls

  /** One more pass adds its own display calls at the end. */
  lemma EmitSnoc(ps: seq<Pass>, p: Pass)
    ensures Emit(ps + [p]) == Emit(ps) + PassOps(p)
  {
    assert (ps + [p])[..|ps|] == ps;
  }

  /** Pass `k` in terms of the cursor `y` and offset `at` it starts from, and the
      cursor and offset it leaves. */
  lemma PassStep(mem: seq<byte>, k: nat, y0: int, g: Geometry, y: int, at: nat)
    requires g.maxWidthChars > 0 && Offset(k, g.maxWidthChars) + g.maxWidthChars <= |mem|
    requires y == Cursor(k, y0, g) && at == Offset(k, g.maxWidthChars)
    ensures PassAt(mem, k, y0, g) == Pass(y > g.maxHeight, RowFor(y, g), mem[at .. at + g.maxWidthChars])
    ensures Offset(k + 1, g.maxWidthChars) == at + g.maxWidthChars
    ensures Cursor(k + 1, y0, g) == RowFor(y, g) + g.fontHeight
    ensures Ops(mem, k + 1, y0, g) == Ops(mem, k, y0, g) + PassOps(PassAt(mem, k, y0, g))
  {
  }

  /** The display calls of the first `n` passes are those of each pass in turn. */
  lemma {:induction false} OpsOfPasses(mem: seq<byte>, n: nat, y0: int, g: Geometry)
    requires g.maxWidthChars > 0 && Offset(n, g.maxWidthChars) <= |mem|
    ensures Ops(mem, n, y0, g) == Emit(Passes(mem, n, y0, g))
  {
    if n > 0 {
      var ps, p := Passes(mem, n - 1, y0, g), PassAt(mem, n - 1, y0, g);
      OpsOfPasses(mem, n - 1, y0, g);
      EmitSnoc(ps, p);
      assert Passes(mem, n, y0, g) == ps + [p];
    }
  }

  /** With the cursor past the bottom, a callback that draws anything first clears
      the screen and then draws on the top line. */
  lemma {:induction false} ClearsFirstPastBottom(mem: seq<byte>, n: nat, y0: int, g: Geometry)
    requires g.maxWidthChars > 0 && Offset(n, g.maxWidthChars) <= |mem|
    requires 0 < n && y0 > g.maxHeight
    ensures var ops := Ops(mem, n, y0, g);
      |ops| >= 2 && ops[0] == Clear && ops[1].Draw? && ops[1].y == g.fontHeight
  {
    if n > 1 {
      ClearsFirstPastBottom(mem, n - 1, y0, g);
      var prev, last := Ops(mem, n - 1, y0, g), PassOps(PassAt(mem, n - 1, y0, g));
      assert Ops(mem, n, y0, g) == prev + last;
      assert (prev + last)[0] == prev[0] && (prev + last)[1] == prev[1];
    }
  }

  /** The strings drawn for a sequence of passes lie within the rows of the passes
      and are no longer than their chunks. */
  lemma {:induction false} EmitDraws(t: seq<Pass>, w: nat, lo: int, hi: int)
    requires forall k :: 0 <= k < |t| ==> |t[k].chunk| == w
    requires RowsWithin(t, lo, hi)
    ensures DrawsWithin(Emit(t), w, lo, hi)
  {
    if t != [] {
      var init, p := t[..|t| - 1], t[|t| - 1];
      EmitDraws(init, w, lo, hi);
      var a, b := Emit(init), PassOps(p);
      TerminatedStringFits(p.chunk + [NUL]);
      assert DrawsWithin(b, w, lo, hi);
      forall i | 0 <= i < |a + b| && (a + b)[i].Draw?
        ensures (a + b)[i].x == TextX && lo <= (a + b)[i].y <= hi && |(a + b)[i].text| <= w
      {
        if i >= |a| {
          assert (a + b)[i] == b[i - |a|];
        }
      }
    }
  }

  /** Everything one callback draws, for a payload of `len` bytes and the cursor at
      `y0` within the screen: ceil(len / w) strings when `len` is not a whole number
      of widths and none otherwise, string `k` taken from bytes `[k*w, k*w + w)`,
      each at most `w` bytes long, at the left margin and on screen; the cursor
      stays within the screen. */
  lemma Paginates(mem: seq<byte>, len: nat, y0: int, g: Geometry)
    requires g.Valid()
    requires Extent(len, g.maxWidthChars) <= |mem|
    requires g.fontHeight <= y0 <= g.maxHeight + g.fontHeight
    ensures var n := Iterations(len, g.maxWidthChars);
      var t := Passes(mem, n, y0, g);
      var w := g.maxWidthChars;
      n == (if len % w == 0 then 0 else len / w + 1) && |t| == n &&
      (forall k :: 0 <= k < n ==> k * w + w <= |mem| && t[k].chunk == mem[k * w .. k * w + w]) &&
      DrawsWithin(Ops(mem, n, y0, g), w, g.fontHeight, g.maxHeight) &&
      g.fontHeight <= Cursor(n, y0, g) <= g.maxHeight + g.fontHeight
  {
    var w := g.maxWidthChars;
    var n := Iterations(len, w);
    IterationsClosedForm(len, w);
    PassChunks(mem, n, y0, g);
    RowsOnScreen(mem, n, y0, g);
    CursorOnScreen(n, y0, g);
    ChunkWidths(mem, n, y0, g);
    EmitDraws(Passes(mem, n, y0, g), w, g.fontHeight, g.maxHeight);
    OpsOfPasses(mem, n, y0, g);
  }
}
