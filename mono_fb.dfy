/** The monochrome doubled-resolution framebuffer (src/mono_doubled_fb.c and
    `struct cli_mono_doubled_fb` in inc/clifb.h): a grid of boolean pixels
    twice as wide and twice as tall as the terminal, drawn by turning every
    2x2 block into one quadrant glyph. */
module MonoFb {
  import opened Symbols
  import opened PixelGrid
  import opened Device

  /** `fb_type_t`: the tag in the first field of every framebuffer struct. */
  datatype FbType = SymbolFramebuffer | MonoDoubledFramebuffer

  /** The blocks obtained from `malloc`/`calloc` and not yet passed to `free`. */
  class Allocator {
    var live: set<object>

    constructor ()
      ensures live == {}
    {
      live := {};
    }
  }

  /** `struct cli_mono_doubled_fb`.  Its `window` field is never set or read
      by the core and is not modelled. */
  class MonoDoubledFb {
    var fbType: FbType
    /** `size.x` and `size.y`, in pixels; no operation after creation changes them. */
    var sizeX: int
    var sizeY: int
    /** `items`: the pixels, row-major, `size.y * size.x` of them; null until allocated. */
    var items: array?<bool>

    /** The struct as `malloc` followed by `memset(fb, 0, …)` leaves it. */
    constructor Zeroed()
      ensures fbType == SymbolFramebuffer && sizeX == 0 && sizeY == 0 && items == null
    {
      fbType := SymbolFramebuffer;
      sizeX := 0;
      sizeY := 0;
      items := null;
    }

    /** A framebuffer as `init_mono_doubled_fb` returns it: the buffer exists,
        has one cell per pixel, and both dimensions are even. */
    predicate Valid()
      reads this
    {
      items != null && 0 <= sizeX && 0 <= sizeY &&
      sizeX % 2 == 0 && sizeY % 2 == 0 &&
      items.Length == sizeY * sizeX
    }

    /** The pixels as a flat row-major sequence. */
    function Cells(): (c: seq<bool>)
      reads this, items
      requires Valid()
      ensures IsGrid(c, sizeX, sizeY)
    {
      items[..]
    }

    /** GET_MONO_FB_PIXEL(fb, uy, ux): the pixel at row `uy`, column `ux`.
        The macro checks nothing, so the caller must keep (uy, ux) on the grid. */
    function GetPixel(uy: int, ux: int): (v: bool)
      reads this, items
      requires Valid() && InBounds(sizeX, sizeY, uy, ux)
      ensures v == Pixel(Cells(), sizeX, sizeY, uy, ux)
    {
      IndexInRange(sizeX, sizeY, uy, ux);
      items[uy * sizeX + ux]
    }

    /** SET_MONO_FB_PIXEL(fb, uy, ux, value).  The macro checks nothing, so
        the caller must keep (uy, ux) on the grid. */
    method SetPixel(uy: int, ux: int, value: bool)
      requires Valid() && InBounds(sizeX, sizeY, uy, ux)
      modifies items
      ensures Cells() == WithPixel(old(Cells()), sizeX, sizeY, uy, ux, value)
    {
      IndexInRange(sizeX, sizeY, uy, ux);
      items[uy * sizeX + ux] := value;
    }

    /** `memset(fb->items, 0, size.y * size.x * sizeof(bool))`: every pixel off. */
    method ClearPixels()
      requires Valid()
      modifies items
      ensures Cells() == Uniform(sizeY * sizeX, false)
    {
      forall i | 0 <= i < items.Length {
        items[i] := false;
      }
    }
  }

  /** A grid that can be cut into whole 2x2 blocks. */
  predicate EvenGrid(cells: seq<bool>, width: nat, height: nat)
  {
    IsGrid(cells, width, height) && width % 2 == 0 && height % 2 == 0
  }

  /** The four pixels of the block whose top-left pixel is (y, x). */
  function BlockQuad(cells: seq<bool>, width: nat, height: nat, y: int, x: int): Quad
    requires IsGrid(cells, width, height)
    requires 0 <= y && y + 1 < height && 0 <= x && x + 1 < width
  {
    Quad(Pixel(cells, width, height, y, x), Pixel(cells, width, height, y, x + 1),
         Pixel(cells, width, height, y + 1, x), Pixel(cells, width, height, y + 1, x + 1))
  }

  /** In a grid of even size, a block starting at an even pixel (y, x) has
      all four pixels on the grid, and they are read straight from the flat
      buffer at the four offsets refresh uses. */
  lemma BlockCells(cells: seq<bool>, width: nat, height: nat, y: int, x: int)
    requires EvenGrid(cells, width, height)
    requires 0 <= y < height && 0 <= x < width && y % 2 == 0 && x % 2 == 0
    ensures y + 1 < height && x + 1 < width
    ensures 0 <= y * width + x && y * width + (x + 1) < |cells|
    ensures 0 <= (y + 1) * width + x && (y + 1) * width + (x + 1) < |cells|
    ensures BlockQuad(cells, width, height, y, x) ==
            Quad(cells[y * width + x], cells[y * width + (x + 1)],
                 cells[(y + 1) * width + x], cells[(y + 1) * width + (x + 1)])
  {
    IndexInRange(width, height, y, x);
    IndexInRange(width, height, y, x + 1);
    IndexInRange(width, height, y + 1, x);
    IndexInRange(width, height, y + 1, x + 1);
  }

  /** What refresh draws for block (br, bc): at terminal cell (br, bc), the
      table entry for the code of pixels (2br, 2bc) .. (2br+1, 2bc+1). */
  function BlockDraw(cells: seq<bool>, width: nat, height: nat, br: int, bc: int): Event
    requires EvenGrid(cells, width, height)
    requires 0 <= br < height / 2 && 0 <= bc < width / 2
  {
    Draw(br, bc, Code(BlockQuad(cells, width, height, 2 * br, 2 * bc)))
  }

  /** The k-th glyph of a frame: blocks are numbered row by row. */
  function FrameEvent(cells: seq<bool>, width: nat, height: nat, k: int): Event
    requires EvenGrid(cells, width, height)
    requires 0 <= k < (height / 2) * (width / 2)
  {
    CellIsPixel(width / 2, height / 2, k);
    BlockDraw(cells, width, height, k / (width / 2), k % (width / 2))
  }

  /** The glyphs one refresh draws for the grid `cells`, in emission order. */
  function Frame(cells: seq<bool>, width: nat, height: nat): (f: seq<Event>)
    requires EvenGrid(cells, width, height)
    ensures |f| == (height / 2) * (width / 2)
  {
    seq((height / 2) * (width / 2),
        k requires 0 <= k < (height / 2) * (width / 2) => FrameEvent(cells, width, height, k))
  }

  /** Block (br, bc) is drawn once, as event number br * (width/2) + bc. */
  lemma FrameAt(cells: seq<bool>, width: nat, height: nat, br: int, bc: int)
    requires EvenGrid(cells, width, height)
    requires 0 <= br < height / 2 && 0 <= bc < width / 2
    ensures 0 <= br * (width / 2) + bc < |Frame(cells, width, height)|
    ensures Frame(cells, width, height)[br * (width / 2) + bc] == BlockDraw(cells, width, height, br, bc)
  {
    IndexInRange(width / 2, height / 2, br, bc);
    IndexSplits(width / 2, br, bc);
  }

  /** Drawing block (br, bc) after everything drawn before it extends the
      part of the frame drawn so far by one event. */
  lemma FrameStep(cells: seq<bool>, width: nat, height: nat, br: int, bc: int, done: int, before: seq<Event>)
    requires EvenGrid(cells, width, height)
    requires 0 <= br < height / 2 && 0 <= bc < width / 2
    requires done == br * (width / 2)
    ensures 0 <= done + bc < |Frame(cells, width, height)|
    ensures var f := Frame(cells, width, height);
            before + f[..done + bc] + [BlockDraw(cells, width, height, br, bc)] == before + f[..done + bc + 1]
  {
    FrameAt(cells, width, height, br, bc);
    var f := Frame(cells, width, height);
    assert f[..done + bc + 1] == f[..done + bc] + [f[done + bc]];
  }

  /** One step of refresh: with the block at pixel (y, x) = (2 row, 2 col)
      packed into `code`, the draw at terminal cell (y/2, x/2) is the next
      event of the frame. */
  lemma RefreshStep(cells: seq<bool>, width: nat, height: nat, y: int, x: int, row: int, col: int,
                    done: int, before: seq<Event>, code: int)
    requires EvenGrid(cells, width, height)
    requires 0 <= y < height && y == 2 * row && 0 <= x < width && x == 2 * col
    requires done == row * (width / 2)
    requires code == Code(BlockQuad(cells, width, height, y, x))
    ensures 0 <= done + col < |Frame(cells, width, height)|
    ensures var f := Frame(cells, width, height);
            before + f[..done + col] + [Draw(y / 2, x / 2, code)] == before + f[..done + col + 1]
  {
    FrameStep(cells, width, height, row, col, done, before);
  }

  /** Every event of a frame is a draw of some block, at that block's cell. */
  lemma FrameEventIsBlock(cells: seq<bool>, width: nat, height: nat, k: int)
    requires EvenGrid(cells, width, height)
    requires 0 <= k < |Frame(cells, width, height)|
    ensures width / 2 > 0
    ensures var e := Frame(cells, width, height)[k];
            e.Draw? && 0 <= e.row < height / 2 && 0 <= e.col < width / 2 &&
            k == e.row * (width / 2) + e.col &&
            e == BlockDraw(cells, width, height, e.row, e.col)
  {
    CellIsPixel(width / 2, height / 2, k);
  }

  /** Emission order is row-major by block: an earlier event is on an earlier
      terminal row, or on the same row further left. */
  lemma FrameRowMajor(cells: seq<bool>, width: nat, height: nat, k1: int, k2: int)
    requires EvenGrid(cells, width, height)
    requires 0 <= k1 < k2 < |Frame(cells, width, height)|
    ensures var f := Frame(cells, width, height);
            f[k1].row < f[k2].row || (f[k1].row == f[k2].row && f[k1].col < f[k2].col)
  {
    FrameEventIsBlock(cells, width, height, k1);
    FrameEventIsBlock(cells, width, height, k2);
    CellOrder(width / 2, k1, k2);
  }

  /** The glyph drawn for a block inks exactly that block's set pixels. */
  lemma FrameShowsPixels(cells: seq<bool>, width: nat, height: nat, br: int, bc: int)
    requires EvenGrid(cells, width, height)
    requires 0 <= br < height / 2 && 0 <= bc < width / 2
    ensures Inked(Glyph(BlockDraw(cells, width, height, br, bc).code))
            == Some(BlockQuad(cells, width, height, 2 * br, 2 * bc))
  {
    GlyphShowsBlock(BlockQuad(cells, width, height, 2 * br, 2 * bc));
  }

  /** A block's glyph depends only on its own four pixels. */
  lemma BlockDrawLocal(a: seq<bool>, b: seq<bool>, width: nat, height: nat, br: int, bc: int)
    requires EvenGrid(a, width, height) && EvenGrid(b, width, height)
    requires 0 <= br < height / 2 && 0 <= bc < width / 2
    requires forall y, x :: 2 * br <= y <= 2 * br + 1 && 2 * bc <= x <= 2 * bc + 1 ==>
               Pixel(a, width, height, y, x) == Pixel(b, width, height, y, x)
    ensures BlockDraw(a, width, height, br, bc) == BlockDraw(b, width, height, br, bc)
  {
    assert BlockQuad(a, width, height, 2 * br, 2 * bc) == BlockQuad(b, width, height, 2 * br, 2 * bc);
  }

  /** In a uniform grid every block is four equal pixels. */
  lemma UniformBlock(width: nat, height: nat, v: bool, br: int, bc: int)
    requires width % 2 == 0 && height % 2 == 0
    requires 0 <= br < height / 2 && 0 <= bc < width / 2
    ensures BlockQuad(Uniform(height * width, v), width, height, 2 * br, 2 * bc) == Quad(v, v, v, v)
  {
    var y, x := 2 * br, 2 * bc;
    UniformPixel(width, height, v, y, x);
    UniformPixel(width, height, v, y, x + 1);
    UniformPixel(width, height, v, y + 1, x);
    UniformPixel(width, height, v, y + 1, x + 1);
  }

  /** Every block of a uniform grid gets the same glyph: blank (code 0) for
      all-false, the full block (code 15) for all-true. */
  lemma UniformFrame(width: nat, height: nat, v: bool, k: int)
    requires width % 2 == 0 && height % 2 == 0
    requires 0 <= k < (height / 2) * (width / 2)
    ensures var f := Frame(Uniform(height * width, v), width, height);
            f[k].Draw? && f[k].code == (if v then 15 else 0)
  {
    var cells := Uniform(height * width, v);
    FrameEventIsBlock(cells, width, height, k);
    var e := Frame(cells, width, height)[k];
    UniformBlock(width, height, v, e.row, e.col);
  }

  /** A four-by-four grid has four blocks, drawn top row first. */
  lemma FourByFourFrame(c: seq<bool>)
    requires EvenGrid(c, 4, 4)
    ensures Frame(c, 4, 4) == [BlockDraw(c, 4, 4, 0, 0), BlockDraw(c, 4, 4, 0, 1),
                               BlockDraw(c, 4, 4, 1, 0), BlockDraw(c, 4, 4, 1, 1)]
  {
    FrameAt(c, 4, 4, 0, 0);
    FrameAt(c, 4, 4, 0, 1);
    FrameAt(c, 4, 4, 1, 0);
    FrameAt(c, 4, 4, 1, 1);
  }

  /** The 4x4 grid with only (0,0) and (1,1) set. */
  ghost predicate DiagonalPair(c: seq<bool>)
    requires IsGrid(c, 4, 4)
  {
    forall y, x :: InBounds(4, 4, y, x) ==>
      Pixel(c, 4, 4, y, x) == ((y == 0 && x == 0) || (y == 1 && x == 1))
  }

  /** Of the example's four blocks only the first has pixels set: its top-left and bottom-right. */
  lemma DiagonalPairBlock(c: seq<bool>, br: int, bc: int)
    requires EvenGrid(c, 4, 4) && DiagonalPair(c)
    requires 0 <= br < 2 && 0 <= bc < 2
    ensures BlockDraw(c, 4, 4, br, bc) == Draw(br, bc, if br == 0 && bc == 0 then 0x9 else 0)
  {
    var q := BlockQuad(c, 4, 4, 2 * br, 2 * bc);
    assert q == Quad(br == 0 && bc == 0, false, false, br == 0 && bc == 0);
  }

  /** The four-by-four example: with only pixels (0,0) and (1,1) set, a
      refresh draws ▚ (code 0b1001) at cell (0,0), then blanks at (0,1),
      (1,0) and (1,1). */
  lemma DiagonalExampleFrame(c: seq<bool>)
    requires EvenGrid(c, 4, 4) && DiagonalPair(c)
    ensures Frame(c, 4, 4) == [Draw(0, 0, 0x9), Draw(0, 1, 0), Draw(1, 0, 0), Draw(1, 1, 0)]
    ensures Glyph(0x9) == '\U{259A}' && Glyph(0) == ' '
  {
    FourByFourFrame(c);
    DiagonalPairBlock(c, 0, 0);
    DiagonalPairBlock(c, 0, 1);
    DiagonalPairBlock(c, 1, 0);
    DiagonalPairBlock(c, 1, 1);
    NamedGlyphs();
  }

  /** init_mono_doubled_fb.  `structAllocates` and `itemsAllocates` stand for
      whether `malloc` of the struct and `calloc` of the pixels succeed.
      On success the grid is twice the terminal's size and all false.  If the
      struct cannot be allocated nothing happens; if the pixels cannot be,
      NULL is returned while screen mode stays on and the struct stays
      allocated, never freed. */
  method InitMonoDoubledFb(term: Terminal, heap: Allocator, structAllocates: bool, itemsAllocates: bool)
    returns (fb: MonoDoubledFb?, ghost leaked: object?)
    modifies term, heap
    ensures fb != null <==> structAllocates && itemsAllocates
    ensures fb != null ==>
              fresh(fb) && fresh(fb.items) && fb.Valid() &&
              fb.fbType == MonoDoubledFramebuffer &&
              fb.sizeX == 2 * term.cols && fb.sizeY == 2 * term.rows &&
              fb.Cells() == Uniform(fb.sizeY * fb.sizeX, false) &&
              heap.live == old(heap.live) + {fb, fb.items}
    ensures structAllocates ==> term.inScreenMode
    ensures !structAllocates ==> term.inScreenMode == old(term.inScreenMode) && heap.live == old(heap.live)
    ensures structAllocates && !itemsAllocates ==>
              leaked != null && fresh(leaked) && heap.live == old(heap.live) + {leaked}
    ensures term.trace == old(term.trace)
  {
    leaked := null;
    if !structAllocates {
      return null, leaked;
    }
    var f := new MonoDoubledFb.Zeroed();
    heap.live := heap.live + {f};

    term.InitScreen();

    f.fbType := MonoDoubledFramebuffer;
    f.sizeX := term.cols * 2;
    f.sizeY := term.rows * 2;

    if !itemsAllocates {
      return null, f;
    }
    f.items := new bool[f.sizeY * f.sizeX](_ => false);
    heap.live := heap.live + {f.items};
    fb := f;
  }

  /** destroy_mono_doubled_fb: free the pixels and the struct, then leave screen mode. */
  method DestroyMonoDoubledFb(fb: MonoDoubledFb, term: Terminal, heap: Allocator)
    requires fb.items != null && fb in heap.live && fb.items in heap.live
    modifies term, heap
    ensures heap.live == old(heap.live) - {fb, fb.items}
    ensures !term.inScreenMode && term.trace == old(term.trace)
  {
    heap.live := heap.live - {fb.items};
    heap.live := heap.live - {fb};
    term.EndWin();
  }

  /** refresh_mono_doubled_fb: draw every block's glyph in row-major block
      order, flush once, then clear every pixel. */
  method RefreshMonoDoubledFb(fb: MonoDoubledFb, term: Terminal)
    requires fb.Valid()
    modifies fb.items, term
    ensures term.trace == old(term.trace) + Frame(old(fb.Cells()), fb.sizeX, fb.sizeY) + [Flush]
    ensures fb.Cells() == Uniform(fb.sizeY * fb.sizeX, false)
    ensures term.inScreenMode == old(term.inScreenMode)
  {
    ghost var cells := fb.Cells();
    ghost var frame := Frame(cells, fb.sizeX, fb.sizeY);
    ghost var bw := fb.sizeX / 2;
    ghost var row, done := 0, 0;
    var y := 0;
    while y < fb.sizeY
      invariant 0 <= y <= fb.sizeY && y == 2 * row
      invariant fb.items[..] == cells
      invariant done == row * bw && done <= |frame|
      invariant term.trace == old(term.trace) + frame[..done]
      invariant term.inScreenMode == old(term.inScreenMode)
    {
      NextRow(row, fb.sizeY / 2, bw);
      ghost var col := 0;
      var x := 0;
      while x < fb.sizeX
        invariant 0 <= x <= fb.sizeX && x == 2 * col
        invariant fb.items[..] == cells
        invariant done + bw <= |frame|
        invariant term.trace == old(term.trace) + frame[..done + col]
        invariant term.inScreenMode == old(term.inScreenMode)
      {
        var lt := fb.GetPixel(y, x);
        var rt := fb.GetPixel(y, x + 1);
        var lb := fb.GetPixel(y + 1, x);
        var rb := fb.GetPixel(y + 1, x + 1);
        var symbolId: bv8 := 0;
        symbolId := symbolId | (BitOf(lt) << 3);
        symbolId := symbolId | (BitOf(rt) << 2);
        symbolId := symbolId | (BitOf(lb) << 1);
        symbolId := symbolId | (BitOf(rb) << 0);
        PackedSymbolId(Quad(lt, rt, lb, rb));
        assert Quad(lt, rt, lb, rb) == BlockQuad(cells, fb.sizeX, fb.sizeY, y, x);

        term.AddGlyph(y / 2, x / 2, symbolId as int);

        RefreshStep(cells, fb.sizeX, fb.sizeY, y, x, row, col, done, old(term.trace), symbolId as int);
        x := x + 2;
        col := col + 1;
      }
      done := done + bw;
      row := row + 1;
      y := y + 2;
    }
    assert frame[..done] == frame;

    term.Refresh();

    fb.ClearPixels();
  }
}
