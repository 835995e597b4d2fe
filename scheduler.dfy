// `settings.render` in main.ts: resize and clear the canvas, then let
// `renderChunk` paint it in 32 by 32 blocks. A cursor
// `(horizontalChunk, verticalChunk)` starts at the top-left corner; after each
// block it moves one block to the right, or, once it reaches the canvas width,
// back to the left edge of the next block row. Painting stops as soon as the
// cursor falls below the canvas. The first block is painted unconditionally.
module Scheduler {
  import opened Vectors
  import opened Scene
  import opened Config
  import opened Raster

  /** The side of a block. */
  const Chunk: nat := 32

  /** The block cursor: `horizontalChunk` and `verticalChunk`. */
  datatype Cursor = Cursor(h: int, v: int)

  /** The cursor update after one block. */
  function Advance(c: Cursor, width: int): (next: Cursor)
    ensures next.v == c.v ==> next.h == c.h + Chunk < width
    ensures next.v != c.v ==> c.h + Chunk >= width && next == Cursor(0, c.v + Chunk)
  {
    var h := c.h + Chunk;
    if h >= width then Cursor(0, c.v + Chunk) else Cursor(h, c.v)
  }

  /** The cursors `renderChunk` is called with, from `c` on, in order. */
  function Run(c: Cursor, width: int, height: int): (cs: seq<Cursor>)
    ensures 1 <= |cs| && cs[0] == c
    decreases height - c.v, width - c.h
  {
    var next := Advance(c, width);
    if next.v < height then [c] + Run(next, width, height) else [c]
  }

  /** The number of blocks needed to cover `n` pixels, and at least one. */
  function Blocks(n: int): (k: nat)
    ensures 1 <= k
  {
    if n <= Chunk then 1 else (n + Chunk - 1) / Chunk
  }

  /** For a positive size `Blocks` is the ceiling of `n / 32`: the blocks
      cover the size, and one block fewer would not. */
  lemma BlocksIsCeiling(n: int)
    requires 1 <= n
    ensures Blocks(n) == (n + Chunk - 1) / Chunk
    ensures Chunk * (Blocks(n) - 1) < n <= Chunk * Blocks(n)
  {
  }

  /** `m` blocks reach `n` pixels exactly when `m` is at least `Blocks(n)`. */
  lemma BlocksReach(n: int, m: int)
    requires 1 <= m
    ensures Chunk * m >= n <==> m >= Blocks(n)
  {
    if n > Chunk {
      BlocksIsCeiling(n);
    }
  }

  /** Row `r` of the block grid, left to right. */
  function Row(r: int, cols: nat): (cs: seq<Cursor>)
    ensures |cs| == cols
  {
    seq(cols, j requires 0 <= j < cols => Cursor(j * Chunk, r * Chunk))
  }

  /** Rows `r` to `rows - 1` of the block grid, top to bottom: the row-major
      order in which the blocks are meant to be painted. */
  function RowsFrom(r: int, rows: int, cols: nat): seq<Cursor>
    decreases rows - r
  {
    if r >= rows then [] else Row(r, cols) + RowsFrom(r + 1, rows, cols)
  }

  /** The row-major grid of `Blocks(height)` rows of `Blocks(width)` blocks. */
  function Grid(width: int, height: int): seq<Cursor> {
    RowsFrom(0, Blocks(height), Blocks(width))
  }

  /** From block `j` of row `r`, the cursor runs through the rest of that row
      and then through every later row. */
  lemma {:induction false} RunFrom(width: int, height: int, r: int, j: int)
    requires 1 <= height
    requires 0 <= r < Blocks(height) && 0 <= j < Blocks(width)
    ensures Run(Cursor(j * Chunk, r * Chunk), width, height)
              == Row(r, Blocks(width))[j..] + RowsFrom(r + 1, Blocks(height), Blocks(width))
    decreases Blocks(height) - r, Blocks(width) - j
  {
    var cols, rows := Blocks(width), Blocks(height);
    var c := Cursor(j * Chunk, r * Chunk);
    var next := Advance(c, width);
    var row := Row(r, cols);
    assert row[j..] == [c] + row[j + 1..];
    BlocksReach(width, j + 1);
    BlocksReach(height, r + 1);
    if j + 1 < cols {
      assert next == Cursor((j + 1) * Chunk, r * Chunk);
      if r > 0 {
        BlocksReach(height, r);
      }
      RunFrom(width, height, r, j + 1);
    } else {
      assert row[j + 1..] == [];
      if r + 1 < rows {
        assert next == Cursor(0 * Chunk, (r + 1) * Chunk);
        RunFrom(width, height, r + 1, 0);
        assert Row(r + 1, cols)[0..] == Row(r + 1, cols);
      }
    }
  }

  /** The blocks are painted row by row, left to right within a row, and each
      block of the grid exactly once: `Blocks(width) * Blocks(height)` of them. */
  lemma RunIsRowMajor(width: int, height: int)
    requires 1 <= height
    ensures Run(Cursor(0, 0), width, height) == Grid(width, height)
    ensures |Run(Cursor(0, 0), width, height)| == Blocks(width) * Blocks(height)
  {
    RunFrom(width, height, 0, 0);
    assert Row(0, Blocks(width))[0..] == Row(0, Blocks(width));
    GridSize(0, Blocks(height), Blocks(width));
  }

  /** Below a canvas with no rows only the first block is painted. */
  lemma RunWithoutRows(width: int, height: int)
    requires height <= 0
    ensures Run(Cursor(0, 0), width, height) == [Cursor(0, 0)]
  {
  }

  lemma {:induction false} GridSize(r: nat, rows: nat, cols: nat)
    requires r <= rows
    ensures |RowsFrom(r, rows, cols)| == (rows - r) * cols
    decreases rows - r
  {
    if r < rows {
      GridSize(r + 1, rows, cols);
    }
  }

  /** The grid holds exactly the cursors on multiples of 32 inside it. */
  lemma {:induction false} GridMembers(r: int, rows: int, cols: nat)
    ensures forall c :: c in RowsFrom(r, rows, cols) <==>
              exists i, k :: r <= k < rows && 0 <= i < cols && c == Cursor(i * Chunk, k * Chunk)
    decreases rows - r
  {
    if r < rows {
      GridMembers(r + 1, rows, cols);
      var rest := RowsFrom(r + 1, rows, cols);
      forall c | c in RowsFrom(r, rows, cols)
        ensures exists i, k :: r <= k < rows && 0 <= i < cols && c == Cursor(i * Chunk, k * Chunk)
      {
        if c in Row(r, cols) {
          var i :| 0 <= i < cols && Row(r, cols)[i] == c;
          assert c == Cursor(i * Chunk, r * Chunk);
        } else {
          assert c in rest;
        }
      }
      forall c | exists i, k :: r <= k < rows && 0 <= i < cols && c == Cursor(i * Chunk, k * Chunk)
        ensures c in RowsFrom(r, rows, cols)
      {
        var i, k :| r <= k < rows && 0 <= i < cols && c == Cursor(i * Chunk, k * Chunk);
        if k == r {
          assert Row(r, cols)[i] == c;
        } else {
          assert c in rest;
        }
      }
    }
  }

  /** Strictly before in row-major order. */
  predicate Before(a: Cursor, b: Cursor) {
    a.v < b.v || (a.v == b.v && a.h < b.h)
  }

  predicate RowMajor(cs: seq<Cursor>) {
    forall i, j :: 0 <= i < j < |cs| ==> Before(cs[i], cs[j])
  }

  /** Every cursor of the grid from row `r` on lies in row `r` or below. */
  lemma {:induction false} GridBelow(r: int, rows: int, cols: nat)
    ensures forall c :: c in RowsFrom(r, rows, cols) ==> r * Chunk <= c.v
    decreases rows - r
  {
    if r < rows {
      GridBelow(r + 1, rows, cols);
    }
  }

  /** The grid is in strictly increasing row-major order. */
  lemma {:induction false} GridRowMajor(r: int, rows: int, cols: nat)
    ensures RowMajor(RowsFrom(r, rows, cols))
    decreases rows - r
  {
    if r < rows {
      GridRowMajor(r + 1, rows, cols);
      GridBelow(r + 1, rows, cols);
      var row := Row(r, cols);
      var rest := RowsFrom(r + 1, rows, cols);
      var all := row + rest;
      forall i, j | 0 <= i < j < |all| ensures Before(all[i], all[j]) {
        if j < |row| {
          assert all[i] == row[i] && all[j] == row[j];
        } else if i < |row| {
          assert all[j] == rest[j - |row|] && all[j] in rest;
        } else {
          assert all[i] == rest[i - |row|] && all[j] == rest[j - |row|];
        }
      }
    }
  }

  /** The pixels written while painting the blocks at `cs`, in order. */
  function BlockPixels(cs: seq<Cursor>): seq<(int, int)> {
    if cs == [] then []
    else BlockPixels(cs[..|cs| - 1]) + ColumnMajor(cs[|cs| - 1].h, cs[|cs| - 1].v, Chunk, Chunk)
  }

  lemma {:induction false} BlockPixelsMembers(cs: seq<Cursor>)
    ensures forall p :: p in BlockPixels(cs) <==>
              exists i :: 0 <= i < |cs| && InBlock(p, cs[i].h, cs[i].v, Chunk, Chunk)
  {
    if cs != [] {
      var init := cs[..|cs| - 1];
      var last := cs[|cs| - 1];
      BlockPixelsMembers(init);
      ColumnMajorExactlyOnce(last.h, last.v, Chunk, Chunk);
      forall p | exists i :: 0 <= i < |cs| && InBlock(p, cs[i].h, cs[i].v, Chunk, Chunk)
        ensures p in BlockPixels(cs)
      {
        var i :| 0 <= i < |cs| && InBlock(p, cs[i].h, cs[i].v, Chunk, Chunk);
        if i < |cs| - 1 {
          assert init[i] == cs[i];
        }
      }
      forall p | p in BlockPixels(cs)
        ensures exists i :: 0 <= i < |cs| && InBlock(p, cs[i].h, cs[i].v, Chunk, Chunk)
      {
        if p in BlockPixels(init) {
          var i :| 0 <= i < |init| && InBlock(p, init[i].h, init[i].v, Chunk, Chunk);
          assert init[i] == cs[i];
        } else {
          assert InBlock(p, cs[|cs| - 1].h, cs[|cs| - 1].v, Chunk, Chunk);
        }
      }
    }
  }

  /** The pixels painted are those of the `Blocks(width)` by `Blocks(height)`
      block grid: the whole canvas, and past its right and bottom edges up to
      the next multiple of 32. */
  lemma PaintedArea(width: int, height: int)
    requires 1 <= width && 1 <= height
    ensures forall p :: p in BlockPixels(Run(Cursor(0, 0), width, height)) <==>
              0 <= p.0 < Chunk * Blocks(width) && 0 <= p.1 < Chunk * Blocks(height)
    ensures forall p: (int, int) :: 0 <= p.0 < width && 0 <= p.1 < height ==>
              p in BlockPixels(Run(Cursor(0, 0), width, height))
  {
    var cols, rows := Blocks(width), Blocks(height);
    var cs := Run(Cursor(0, 0), width, height);
    RunIsRowMajor(width, height);
    BlockPixelsMembers(cs);
    GridMembers(0, rows, cols);
    BlocksIsCeiling(width);
    BlocksIsCeiling(height);
    forall p | p in BlockPixels(cs)
      ensures 0 <= p.0 < Chunk * cols && 0 <= p.1 < Chunk * rows
    {
      var i :| 0 <= i < |cs| && InBlock(p, cs[i].h, cs[i].v, Chunk, Chunk);
      assert cs[i] in RowsFrom(0, rows, cols);
      var a, k :| 0 <= k < rows && 0 <= a < cols && cs[i] == Cursor(a * Chunk, k * Chunk);
    }
    forall p: (int, int) | 0 <= p.0 < Chunk * cols && 0 <= p.1 < Chunk * rows
      ensures p in BlockPixels(cs)
    {
      var a, k := p.0 / Chunk, p.1 / Chunk;
      var c := Cursor(a * Chunk, k * Chunk);
      assert c in RowsFrom(0, rows, cols);
      var i :| 0 <= i < |cs| && cs[i] == c;
      assert InBlock(p, cs[i].h, cs[i].v, Chunk, Chunk);
    }
  }

  /** A cursor on multiples of 32 in both directions. */
  predicate Aligned(c: Cursor) {
    c.h % Chunk == 0 && c.v % Chunk == 0
  }

  lemma MultipleAligned(a: int, k: int)
    ensures Aligned(Cursor(a * Chunk, k * Chunk))
  {
  }

  /** Two blocks on multiples of 32 that share a pixel are the same block. */
  lemma AlignedBlocksDisjoint(p: (int, int), a: Cursor, b: Cursor)
    requires Aligned(a) && Aligned(b)
    requires InBlock(p, a.h, a.v, Chunk, Chunk) && InBlock(p, b.h, b.v, Chunk, Chunk)
    ensures a == b
  {
    assert a.h / Chunk == p.0 / Chunk == b.h / Chunk;
    assert a.v / Chunk == p.1 / Chunk == b.v / Chunk;
  }

  /** No pixel is written twice: blocks of distinct aligned cursors are disjoint. */
  lemma {:induction false} BlockPixelsDistinct(cs: seq<Cursor>)
    requires RowMajor(cs)
    requires forall i :: 0 <= i < |cs| ==> Aligned(cs[i])
    ensures Distinct(BlockPixels(cs))
  {
    if cs != [] {
      var init := cs[..|cs| - 1];
      var last := cs[|cs| - 1];
      BlockPixelsDistinct(init);
      BlockPixelsMembers(init);
      ColumnMajorExactlyOnce(last.h, last.v, Chunk, Chunk);
      var front := BlockPixels(init);
      var block := ColumnMajor(last.h, last.v, Chunk, Chunk);
      forall p | p in front ensures p !in block {
        var k :| 0 <= k < |init| && InBlock(p, init[k].h, init[k].v, Chunk, Chunk);
        if p in block {
          assert init[k] == cs[k];
          AlignedBlocksDisjoint(p, cs[k], last);
          assert false;
        }
      }
      DistinctAppend(front, block);
    }
  }

  /** Over a whole render, each pixel of the block grid is written exactly once. */
  lemma RenderWritesOnce(width: int, height: int)
    requires 1 <= height
    ensures Distinct(BlockPixels(Run(Cursor(0, 0), width, height)))
  {
    var cols, rows := Blocks(width), Blocks(height);
    var cs := Run(Cursor(0, 0), width, height);
    RunIsRowMajor(width, height);
    GridRowMajor(0, rows, cols);
    GridMembers(0, rows, cols);
    forall i | 0 <= i < |cs| ensures Aligned(cs[i]) {
      assert cs[i] in RowsFrom(0, rows, cols);
      var a, k :| 0 <= k < rows && 0 <= a < cols && cs[i] == Cursor(a * Chunk, k * Chunk);
      MultipleAligned(a, k);
    }
    BlockPixelsDistinct(cs);
  }

  /** Painting `a` and then `b` is painting `a + b`. */
  lemma {:induction false} PaintAllAppend(s: Settings, env: Env, shade: Ray -> Color, width: int, height: int,
                                          before: map<(int, int), Color>, a: seq<(int, int)>, b: seq<(int, int)>)
    requires width != 0 && height != 0
    ensures PaintAll(s, env, shade, width, height, before, a + b)
              == PaintAll(s, env, shade, width, height, PaintAll(s, env, shade, width, height, before, a), b)
  {
    if b != [] {
      var init := b[..|b| - 1];
      var p := b[|b| - 1];
      var mid := PaintAll(s, env, shade, width, height, before, a);
      assert b == init + [p];
      assert a + b == (a + init) + [p];
      calc {
        PaintAll(s, env, shade, width, height, before, a + b);
        PaintAll(s, env, shade, width, height, before, (a + init) + [p]);
        { PaintAllSnoc(s, env, shade, width, height, before, a + init, p); }
        PaintAll(s, env, shade, width, height, before, a + init)[p := PixelValue(s, env, shade, width, height, p.0, p.1)];
        { PaintAllAppend(s, env, shade, width, height, before, a, init); }
        PaintAll(s, env, shade, width, height, mid, init)[p := PixelValue(s, env, shade, width, height, p.0, p.1)];
        { PaintAllSnoc(s, env, shade, width, height, mid, init, p); }
        PaintAll(s, env, shade, width, height, mid, init + [p]);
      }
    } else {
      assert a + b == a;
    }
  }

  /** After a render every pixel of the canvas, and every other pixel that was
      painted, holds the colour `rayTracer` computes for it, and the canvas
      holds nothing else. */
  lemma RenderPaintsCanvas(s: Settings, env: Env, shade: Ray -> Color)
    requires 1 <= s.width && 1 <= s.height
    ensures var after := PaintAll(s, env, shade, s.width, s.height, map[],
                                  BlockPixels(Run(Cursor(0, 0), s.width, s.height)));
            && (forall p :: p in after <==> 0 <= p.0 < Chunk * Blocks(s.width) && 0 <= p.1 < Chunk * Blocks(s.height))
            && (forall p :: p in after ==> after[p] == PixelValue(s, env, shade, s.width, s.height, p.0, p.1))
  {
    PaintedArea(s.width, s.height);
    PaintAllEffect(s, env, shade, s.width, s.height, map[], BlockPixels(Run(Cursor(0, 0), s.width, s.height)));
  }

  /** `settings.render`: resize and clear the canvas, then call `renderChunk`
      once and again for as long as it reschedules itself. */
  method Render(canvas: Canvas, s: Settings, env: Env, ghost shade: Ray -> Color)
    requires s.width != 0 && s.height != 0
    requires Traces(s, env, shade)
    modifies canvas
    ensures canvas.width == s.width && canvas.height == s.height
    ensures canvas.writes == BlockPixels(Run(Cursor(0, 0), s.width, s.height))
    ensures canvas.pixels == PaintAll(s, env, shade, s.width, s.height, map[], canvas.writes)
  {
    canvas.ChangeDimensions(s.width, s.height);
    canvas.ClearCanvas();
    var horizontalChunk, verticalChunk := 0, 0;
    ghost var all := Run(Cursor(0, 0), s.width, s.height);
    ghost var visited: seq<Cursor> := [];
    var more := true;
    while more
      invariant canvas.width == s.width && canvas.height == s.height
      invariant more ==> all == visited + Run(Cursor(horizontalChunk, verticalChunk), s.width, s.height)
      invariant !more ==> all == visited
      invariant canvas.writes == BlockPixels(visited)
      invariant canvas.pixels == PaintAll(s, env, shade, s.width, s.height, map[], canvas.writes)
      decreases |all| - |visited|
    {
      ghost var c := Cursor(horizontalChunk, verticalChunk);
      horizontalChunk, verticalChunk, more := RenderChunk(canvas, s, env, shade, horizontalChunk, verticalChunk);
      RunStep(c, s.width, s.height, visited, all);
      BlockPixelsSnoc(visited, c);
      visited := visited + [c];
    }
  }

  /** One step of the run: `c` joins the visited cursors, and the rest of the
      run continues from the advanced cursor while that is above the bottom. */
  lemma RunStep(c: Cursor, width: int, height: int, visited: seq<Cursor>, all: seq<Cursor>)
    requires all == visited + Run(c, width, height)
    ensures var next := Advance(c, width);
            && (next.v < height ==> all == (visited + [c]) + Run(next, width, height))
            && (next.v >= height ==> all == visited + [c])
  {
    var next := Advance(c, width);
    if next.v < height {
      AppendAssociative(visited, [c], Run(next, width, height));
    }
  }

  lemma BlockPixelsSnoc(cs: seq<Cursor>, c: Cursor)
    ensures BlockPixels(cs + [c]) == BlockPixels(cs) + ColumnMajor(c.h, c.v, Chunk, Chunk)
  {
    assert (cs + [c])[..|cs|] == cs;
  }

  /** `renderChunk`: paint the block at the cursor, advance the cursor, and
      report whether the closure reschedules itself (`setTimeout`). */
  method RenderChunk(canvas: Canvas, s: Settings, env: Env, ghost shade: Ray -> Color,
                     horizontalChunk: int, verticalChunk: int)
    returns (nextHorizontal: int, nextVertical: int, more: bool)
    requires canvas.width == s.width && canvas.height == s.height
    requires s.width != 0 && s.height != 0
    requires Traces(s, env, shade)
    requires canvas.pixels == PaintAll(s, env, shade, s.width, s.height, map[], canvas.writes)
    modifies canvas
    ensures canvas.width == s.width && canvas.height == s.height
    ensures canvas.writes == old(canvas.writes) + ColumnMajor(horizontalChunk, verticalChunk, Chunk, Chunk)
    ensures canvas.pixels == PaintAll(s, env, shade, s.width, s.height, map[], canvas.writes)
    ensures Cursor(nextHorizontal, nextVertical) == Advance(Cursor(horizontalChunk, verticalChunk), s.width)
    ensures more <==> nextVertical < s.height
  {
    var chunk := Chunk;
    ghost var writesBefore := canvas.writes;
    RayTracer(canvas, s, env, shade, horizontalChunk, verticalChunk, chunk);
    PaintAllAppend(s, env, shade, s.width, s.height, map[], writesBefore,
                   ColumnMajor(horizontalChunk, verticalChunk, chunk, chunk));
    nextHorizontal, nextVertical := horizontalChunk + chunk, verticalChunk;
    if nextHorizontal >= canvas.width {
      nextHorizontal := 0;
      nextVertical := nextVertical + chunk;
    }
    more := nextVertical < canvas.height;
  }
}
