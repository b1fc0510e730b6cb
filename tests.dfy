/** The drawing routines of the test program (src/tests/main.c): filled and
    outlined rectangles, the pure-white and screen-border test pictures, the
    checkerboard of the frame-rate test, and the choice of tests from the
    command line. */
module Tests {
  import opened Symbols
  import opened PixelGrid
  import opened Device
  import opened MonoFb
  import opened Dispatch

  /** A set of pixels a drawing routine turns on. */
  datatype Shape =
    | FilledRect(ux: int, uy: int, w: int, h: int)
    | OutlineRect(ux: int, uy: int, w: int, h: int)
    | ScreenBorders(width: int, height: int)
    | Everything

  /** Whether pixel (y, x) belongs to the shape.  `OutlineRect` is what
      draw_rectangle writes: on its first and last row every column of
      [ux, ux + w), on the rows between only the columns ux and ux + w - 1. */
  predicate Covers(s: Shape, y: int, x: int)
  {
    match s
    case FilledRect(ux, uy, w, h) => uy <= y < uy + h && ux <= x < ux + w
    case OutlineRect(ux, uy, w, h) =>
      uy <= y < uy + h &&
      if y == uy || y == uy + h - 1 then ux <= x < ux + w else x == ux || x == ux + w - 1
    case ScreenBorders(width, height) => y == 0 || y == height - 1 || x == 0 || x == width - 1
    case Everything => true
  }

  /** The grid after the on-screen pixels of `s` are set to true: every pixel
      keeps its value or becomes true, and it becomes true exactly when the
      shape covers it. */
  function Paint(cells: seq<bool>, width: nat, height: nat, s: Shape): (r: seq<bool>)
    requires IsGrid(cells, width, height)
    ensures IsGrid(r, width, height)
    ensures forall y, x :: InBounds(width, height, y, x) ==>
              Pixel(r, width, height, y, x) == (Pixel(cells, width, height, y, x) || Covers(s, y, x))
  {
    var r := seq(|cells|, i requires 0 <= i < |cells| => cells[i] || Covers(s, i / width, i % width));
    forall y, x | InBounds(width, height, y, x)
      ensures Pixel(r, width, height, y, x) == (Pixel(cells, width, height, y, x) || Covers(s, y, x))
    {
      IndexInRange(width, height, y, x);
      IndexSplits(width, y, x);
    }
    r
  }

  /** The progress of a drawing loop: `cur` is `cells` with the pixels of
      `s` turned on on every row above `y` and on row `y` left of column `x`. */
  ghost predicate PaintedTo(cur: seq<bool>, cells: seq<bool>, width: nat, height: nat, s: Shape, y: int, x: int)
    requires IsGrid(cur, width, height) && IsGrid(cells, width, height)
  {
    forall yy, xx :: InBounds(width, height, yy, xx) ==>
      Pixel(cur, width, height, yy, xx) ==
        (Pixel(cells, width, height, yy, xx) || (Covers(s, yy, xx) && (yy < y || (yy == y && xx < x))))
  }

  /** Once every row is done, the grid is the painted one. */
  lemma PaintedToEnd(cur: seq<bool>, cells: seq<bool>, width: nat, height: nat, s: Shape, y: int)
    requires IsGrid(cur, width, height) && IsGrid(cells, width, height)
    requires PaintedTo(cur, cells, width, height, s, y, 0)
    requires forall yy, xx :: InBounds(width, height, yy, xx) && Covers(s, yy, xx) ==> yy < y
    ensures cur == Paint(cells, width, height, s)
  {
    SameGrid(cur, Paint(cells, width, height, s), width, height);
  }

  /** draw_filled_rectangle: turns on the pixels of [uy, uy + h) x [ux, ux + w)
      that are on the grid and leaves every other pixel as it was; rows and
      columns off the grid are skipped, so any position and size is safe
      (as long as `uy + h` and `ux + w` fit in an `int`). */
  method DrawFilledRectangle(fb: MonoDoubledFb, ux: int, uy: int, w: int, h: int)
    requires fb.Valid()
    modifies fb.items
    ensures fb.Cells() == Paint(old(fb.Cells()), fb.sizeX, fb.sizeY, FilledRect(ux, uy, w, h))
  {
    ghost var cells := fb.Cells();
    ghost var s := FilledRect(ux, uy, w, h);
    var y := uy;
    while y < uy + h
      invariant uy <= y && (y <= uy + h || y == uy)
      invariant PaintedTo(fb.Cells(), cells, fb.sizeX, fb.sizeY, s, y, 0)
    {
      if !(y < 0 || y >= fb.sizeY) {
        var x := ux;
        while x < ux + w
          invariant ux <= x && (x <= ux + w || x == ux)
          invariant PaintedTo(fb.Cells(), cells, fb.sizeX, fb.sizeY, s, y, x)
        {
          if !(x < 0 || x >= fb.sizeX) {
            fb.SetPixel(y, x, true);
          }
          x := x + 1;
        }
      }
      y := y + 1;
    }
    PaintedToEnd(fb.Cells(), cells, fb.sizeX, fb.sizeY, s, y);
  }

  function Max(a: int, b: int): int { if a < b then b else a }
  function Min(a: int, b: int): int { if a < b then a else b }

  /** Some row strictly between the first and the last row of the rectangle
      is on the grid. */
  predicate InteriorRowVisible(uy: int, h: int, height: int)
  {
    Max(uy + 1, 0) < Min(uy + h - 1, height)
  }

  /** draw_rectangle as written.  First and last rows are clipped column by
      column, and rows off the grid are skipped; but the guards of the two
      side pixels use `||` and always hold, so on a visible interior row both
      side columns are written unchecked, and the caller must keep them on
      the grid. */
  method DrawRectangle(fb: MonoDoubledFb, ux: int, uy: int, w: int, h: int)
    requires fb.Valid()
    requires InteriorRowVisible(uy, h, fb.sizeY) ==> 0 <= ux < fb.sizeX && 0 <= ux + w - 1 < fb.sizeX
    modifies fb.items
    ensures fb.Cells() == Paint(old(fb.Cells()), fb.sizeX, fb.sizeY, OutlineRect(ux, uy, w, h))
  {
    ghost var cells := fb.Cells();
    ghost var s := OutlineRect(ux, uy, w, h);
    var y := uy;
    while y < uy + h
      invariant uy <= y && (y <= uy + h || y == uy)
      invariant PaintedTo(fb.Cells(), cells, fb.sizeX, fb.sizeY, s, y, 0)
    {
      if !(y >= fb.sizeY || y < 0) {
        if y == uy || y == uy + h - 1 {
          var x := ux;
          while x < ux + w
            invariant ux <= x && (x <= ux + w || x == ux)
            invariant PaintedTo(fb.Cells(), cells, fb.sizeX, fb.sizeY, s, y, x)
          {
            if !(x >= fb.sizeX || x < 0) {
              fb.SetPixel(y, x, true);
            }
            x := x + 1;
          }
        } else {
          if ux < fb.sizeX || ux >= 0 {
            fb.SetPixel(y, ux, true);
          }
          if (ux + w - 1) < fb.sizeX || (ux + w - 1) >= 0 {
            fb.SetPixel(y, ux + w - 1, true);
          }
        }
      }
      y := y + 1;
    }
    PaintedToEnd(fb.Cells(), cells, fb.sizeX, fb.sizeY, s, y);
  }

  /** draw_rectangle with the side guards written as evidently intended
      (`&&`): every pixel is checked, so any position and size is safe (as long
      as `uy + h` and `ux + w` fit in an `int`) and the same outline is drawn,
      clipped to the grid. */
  method DrawRectangleClipped(fb: MonoDoubledFb, ux: int, uy: int, w: int, h: int)
    requires fb.Valid()
    modifies fb.items
    ensures fb.Cells() == Paint(old(fb.Cells()), fb.sizeX, fb.sizeY, OutlineRect(ux, uy, w, h))
  {
    ghost var cells := fb.Cells();
    ghost var s := OutlineRect(ux, uy, w, h);
    var y := uy;
    while y < uy + h
      invariant uy <= y && (y <= uy + h || y == uy)
      invariant PaintedTo(fb.Cells(), cells, fb.sizeX, fb.sizeY, s, y, 0)
    {
      if !(y >= fb.sizeY || y < 0) {
        if y == uy || y == uy + h - 1 {
          var x := ux;
          while x < ux + w
            invariant ux <= x && (x <= ux + w || x == ux)
            invariant PaintedTo(fb.Cells(), cells, fb.sizeX, fb.sizeY, s, y, x)
          {
            if !(x >= fb.sizeX || x < 0) {
              fb.SetPixel(y, x, true);
            }
            x := x + 1;
          }
        } else {
          if ux < fb.sizeX && ux >= 0 {
            fb.SetPixel(y, ux, true);
          }
          if (ux + w - 1) < fb.sizeX && (ux + w - 1) >= 0 {
            fb.SetPixel(y, ux + w - 1, true);
          }
        }
      }
      y := y + 1;
    }
    PaintedToEnd(fb.Cells(), cells, fb.sizeX, fb.sizeY, s, y);
  }

  /** For a rectangle at least one pixel wide and tall, the outline is its
      border: the pixels of the rectangle on its first or last row or column. */
  lemma OutlineIsBorder(ux: int, uy: int, w: int, h: int, y: int, x: int)
    requires w >= 1 && h >= 1
    ensures Covers(OutlineRect(ux, uy, w, h), y, x) <==>
              Covers(FilledRect(ux, uy, w, h), y, x) &&
              (y == uy || y == uy + h - 1 || x == ux || x == ux + w - 1)
  {
  }

  /** The side guards of draw_rectangle let an off-grid column through.  With
      a 4 x 4 grid and the rectangle ux = -1, uy = -1, w = 3, h = 4, row 0 is
      an interior row on the grid, the guard of the left side holds, and the
      pixel written is at offset -1, before the buffer; on row 1 the same
      side write lands on pixel (0, 3), which is not part of the outline. */
  lemma SideGuardLetsThrough()
    ensures var width, ux, uy, w, h := 4, -1, -1, 3, 4;
            InteriorRowVisible(uy, h, 4) && uy < 0 < uy + h - 1 &&
            (ux < width || ux >= 0) &&
            Index(width, 0, ux) == -1 &&
            Index(width, 1, ux) == Index(width, 0, 3) &&
            !Covers(OutlineRect(ux, uy, w, h), 0, 3)
  {
  }

  /** Painting every pixel gives the all-true grid. */
  lemma PaintEverything(cells: seq<bool>, width: nat, height: nat)
    requires IsGrid(cells, width, height)
    ensures Paint(cells, width, height, Everything) == Uniform(height * width, true)
  {
    forall y, x | InBounds(width, height, y, x)
      ensures Pixel(Paint(cells, width, height, Everything), width, height, y, x) ==
              Pixel(Uniform(height * width, true), width, height, y, x)
    {
      UniformPixel(width, height, true, y, x);
    }
    SameGrid(Paint(cells, width, height, Everything), Uniform(height * width, true), width, height);
  }

  /** test_pure_white: turns every pixel on and refreshes, so the screen gets
      the frame of the all-true grid (a full block at every cell, see
      PureWhiteFrame), one flush, and the grid is left clear. */
  method TestPureWhite(fb: MonoDoubledFb, term: Terminal)
    requires fb.Valid() && fb.fbType == MonoDoubledFramebuffer
    modifies fb.items, term
    ensures term.trace == old(term.trace) + Frame(Uniform(fb.sizeY * fb.sizeX, true), fb.sizeX, fb.sizeY) + [Flush]
    ensures fb.Cells() == Uniform(fb.sizeY * fb.sizeX, false)
    ensures term.inScreenMode == old(term.inScreenMode)
  {
    ghost var cells := fb.Cells();
    for y := 0 to fb.sizeY
      modifies fb.items
      invariant PaintedTo(fb.Cells(), cells, fb.sizeX, fb.sizeY, Everything, y, 0)
    {
      for x := 0 to fb.sizeX
        modifies fb.items
        invariant PaintedTo(fb.Cells(), cells, fb.sizeX, fb.sizeY, Everything, y, x)
      {
        fb.SetPixel(y, x, true);
      }
    }
    PaintedToEnd(fb.Cells(), cells, fb.sizeX, fb.sizeY, Everything, fb.sizeY);
    PaintEverything(cells, fb.sizeX, fb.sizeY);
    RefreshFb(fb, term);
  }

  /** The frame test_pure_white puts on the screen: the full block at every
      character cell. */
  lemma PureWhiteFrame(width: nat, height: nat, k: int)
    requires width % 2 == 0 && height % 2 == 0
    requires 0 <= k < (height / 2) * (width / 2)
    ensures var f := Frame(Uniform(height * width, true), width, height);
            f[k].Draw? && Glyph(f[k].code) == '\U{2588}'
  {
    UniformFrame(width, height, true, k);
    NamedGlyphs();
  }

  /** test_screen_borders: turns on rows 0 and size.y - 1 and columns 0 and
      size.x - 1 and refreshes.  The side pixels of the rows in between are
      written unchecked, so a grid with such rows must be at least one pixel
      wide. */
  method TestScreenBorders(fb: MonoDoubledFb, term: Terminal)
    requires fb.Valid() && fb.fbType == MonoDoubledFramebuffer
    requires fb.sizeY > 2 ==> fb.sizeX > 0
    modifies fb.items, term
    ensures term.trace == old(term.trace) +
              Frame(Paint(old(fb.Cells()), fb.sizeX, fb.sizeY, ScreenBorders(fb.sizeX, fb.sizeY)), fb.sizeX, fb.sizeY) +
              [Flush]
    ensures fb.Cells() == Uniform(fb.sizeY * fb.sizeX, false)
    ensures term.inScreenMode == old(term.inScreenMode)
  {
    ghost var cells := fb.Cells();
    ghost var s := ScreenBorders(fb.sizeX, fb.sizeY);
    for y := 0 to fb.sizeY
      modifies fb.items
      invariant PaintedTo(fb.Cells(), cells, fb.sizeX, fb.sizeY, s, y, 0)
    {
      if y == 0 || y == fb.sizeY - 1 {
        for x := 0 to fb.sizeX
          modifies fb.items
          invariant PaintedTo(fb.Cells(), cells, fb.sizeX, fb.sizeY, s, y, x)
        {
          fb.SetPixel(y, x, true);
        }
      } else {
        fb.SetPixel(y, 0, true);
        fb.SetPixel(y, fb.sizeX - 1, true);
      }
    }
    PaintedToEnd(fb.Cells(), cells, fb.sizeX, fb.sizeY, s, fb.sizeY);
    RefreshFb(fb, term);
  }

  /** What test_screen_borders shows on a clear grid: the cell of block
      (br, bc) inks its upper quadrants on the top row of cells, its lower ones
      on the bottom row, its left ones in the first column and its right ones
      in the last column, and nothing elsewhere. */
  lemma BordersBlock(width: nat, height: nat, br: int, bc: int)
    requires width % 2 == 0 && height % 2 == 0
    requires 0 <= br < height / 2 && 0 <= bc < width / 2
    ensures var g := Paint(Uniform(height * width, false), width, height, ScreenBorders(width, height));
            var top, bottom, left, right := br == 0, br == height / 2 - 1, bc == 0, bc == width / 2 - 1;
            Inked(Glyph(BlockDraw(g, width, height, br, bc).code)) ==
              Some(Quad(top || left, top || right, bottom || left, bottom || right))
  {
    var g := Paint(Uniform(height * width, false), width, height, ScreenBorders(width, height));
    var y, x := 2 * br, 2 * bc;
    UniformPixel(width, height, false, y, x);
    UniformPixel(width, height, false, y, x + 1);
    UniformPixel(width, height, false, y + 1, x);
    UniformPixel(width, height, false, y + 1, x + 1);
    FrameShowsPixels(g, width, height, br, bc);
  }

  /** The checkerboard test_fps writes on a frame: pixel (y, x) is on when
      y + x is even on even frames and when it is odd on odd frames. */
  function Checker(width: nat, height: nat, even: bool): (r: seq<bool>)
    ensures IsGrid(r, width, height)
    ensures forall y, x :: InBounds(width, height, y, x) ==>
              Pixel(r, width, height, y, x) == (((y + x) % 2 == 0) == even)
  {
    var r := seq(height * width, i requires 0 <= i < height * width => ((i / width + i % width) % 2 == 0) == even);
    forall y, x | InBounds(width, height, y, x)
      ensures Pixel(r, width, height, y, x) == (((y + x) % 2 == 0) == even)
    {
      IndexInRange(width, height, y, x);
      IndexSplits(width, y, x);
    }
    r
  }

  /** Every cell of a checkerboard frame shows the same diagonal glyph:
      ▚ (code 0b1001) on even frames, ▞ (code 0b0110) on odd ones. */
  lemma CheckerFrame(width: nat, height: nat, even: bool, k: int)
    requires width % 2 == 0 && height % 2 == 0
    requires 0 <= k < (height / 2) * (width / 2)
    ensures var f := Frame(Checker(width, height, even), width, height);
            f[k].Draw? && f[k].code == (if even then 9 else 6) &&
            Glyph(f[k].code) == (if even then '\U{259A}' else '\U{259E}')
  {
    var c := Checker(width, height, even);
    FrameEventIsBlock(c, width, height, k);
    var e := Frame(c, width, height)[k];
    assert BlockQuad(c, width, height, 2 * e.row, 2 * e.col) == Quad(even, !even, !even, even);
    NamedGlyphs();
  }

  /** Parity alternates. */
  lemma NextParity(n: int)
    ensures ((n + 1) % 2 == 0) == !(n % 2 == 0)
  {
  }

  /** After a row of even length and one more toggle, the parity is that of the next row. */
  lemma RowParity(y: int, width: int)
    requires width % 2 == 0
    ensures ((y + width) % 2 == 0) == (y % 2 == 0)
    ensures ((y + 1) % 2 == 0) == !(y % 2 == 0)
  {
  }

  /** The progress of one checkerboard pass: pixels before (y, x) in row-major
      order hold the checkerboard, the others still hold `cells`. */
  ghost predicate CheckeredTo(cur: seq<bool>, cells: seq<bool>, width: nat, height: nat, even: bool, y: int, x: int)
    requires IsGrid(cur, width, height) && IsGrid(cells, width, height)
  {
    forall yy, xx :: InBounds(width, height, yy, xx) ==>
      Pixel(cur, width, height, yy, xx) ==
        if yy < y || (yy == y && xx < x) then ((yy + xx) % 2 == 0) == even
        else Pixel(cells, width, height, yy, xx)
  }

  /** What the screen receives from test_fps given the frame-rate strings
      shown after each frame: per frame the checkerboard's glyphs and a flush,
      then the string at cell (0, 0) and a second flush. */
  function FpsTrace(width: nat, height: nat, labels: seq<string>): seq<Event>
    requires width % 2 == 0 && height % 2 == 0
  {
    if labels == [] then []
    else
      var n := |labels| - 1;
      FpsTrace(width, height, labels[..n]) +
      Frame(Checker(width, height, n % 2 == 0), width, height) + [Flush, Text(0, 0, labels[n]), Flush]
  }

  /** One more frame of test_fps extends its trace by that frame's glyphs and
      flush, the string and the second flush. */
  lemma FpsTraceStep(width: nat, height: nat, labels: seq<string>, i: nat, before: seq<Event>)
    requires width % 2 == 0 && height % 2 == 0
    requires i < |labels|
    ensures before + FpsTrace(width, height, labels[..i]) +
              Frame(Checker(width, height, i % 2 == 0), width, height) + [Flush] + [Text(0, 0, labels[i])] + [Flush]
            == before + FpsTrace(width, height, labels[..i + 1])
  {
    assert labels[..i + 1][..i] == labels[..i];
  }

  /** Each frame of test_fps costs one event per character cell plus three. */
  lemma {:induction false} FpsTraceLength(width: nat, height: nat, labels: seq<string>)
    requires width % 2 == 0 && height % 2 == 0
    ensures |FpsTrace(width, height, labels)| == |labels| * ((height / 2) * (width / 2) + 3)
  {
    if labels != [] {
      var n := |labels| - 1;
      FpsTraceLength(width, height, labels[..n]);
      assert |labels| * ((height / 2) * (width / 2) + 3) == n * ((height / 2) * (width / 2) + 3) + ((height / 2) * (width / 2) + 3);
    }
  }

  /** The number of frames test_fps draws. */
  const FpsFrames: nat := 200

  /** test_fps: two hundred frames, each overwriting the whole grid with a
      checkerboard whose phase alternates from frame to frame, refreshing it,
      then showing a frame-rate string at cell (0, 0) and flushing again.
      `labels[i]` stands for the string of frame i, which depends on the clock. */
  method TestFps(fb: MonoDoubledFb, term: Terminal, labels: seq<string>)
    requires fb.Valid() && fb.fbType == MonoDoubledFramebuffer
    requires |labels| == FpsFrames
    modifies fb.items, term
    ensures term.trace == old(term.trace) + FpsTrace(fb.sizeX, fb.sizeY, labels)
    ensures fb.Cells() == Uniform(fb.sizeY * fb.sizeX, false)
    ensures term.inScreenMode == old(term.inScreenMode)
  {
    var filled := true;
    for i := 0 to FpsFrames
      invariant filled
      invariant term.trace == old(term.trace) + FpsTrace(fb.sizeX, fb.sizeY, labels[..i])
      invariant i > 0 ==> fb.Cells() == Uniform(fb.sizeY * fb.sizeX, false)
      invariant term.inScreenMode == old(term.inScreenMode)
    {
      ghost var cells := fb.Cells();
      for y := 0 to fb.sizeY
        modifies fb.items
        invariant filled == (y % 2 == 0)
        invariant CheckeredTo(fb.Cells(), cells, fb.sizeX, fb.sizeY, i % 2 == 0, y, 0)
      {
        for x := 0 to fb.sizeX
          modifies fb.items
          invariant filled == ((y + x) % 2 == 0)
          invariant CheckeredTo(fb.Cells(), cells, fb.sizeX, fb.sizeY, i % 2 == 0, y, x)
        {
          if i % 2 == 0 {
            fb.SetPixel(y, x, filled);
          } else {
            fb.SetPixel(y, x, !filled);
          }
          filled := !filled;
          NextParity(y + x);
        }
        filled := !filled;
        RowParity(y, fb.sizeX);
      }
      SameGrid(fb.Cells(), Checker(fb.sizeX, fb.sizeY, i % 2 == 0), fb.sizeX, fb.sizeY);

      RefreshFb(fb, term);
      term.AddText(0, 0, labels[i]);
      term.Refresh();
      FpsTraceStep(fb.sizeX, fb.sizeY, labels, i, old(term.trace));
    }
    assert labels[..FpsFrames] == labels;
  }

  /** An entry of `tests[]`: its name and the delay in milliseconds after it. */
  datatype TestEntry = TestEntry(name: string, delay: int)

  /** `tests[]`, in table order. */
  const TestTable: seq<TestEntry> := [
    TestEntry("Pure white", 1000),
    TestEntry("Screen borders", 1000),
    TestEntry("FPS test\n(2-3ms after every frame\nfor fps counter update!)", 1000),
    TestEntry("Rectangles", 0),
    TestEntry("Filled rectangles", 0),
    TestEntry("Centered rectangles", 0),
    TestEntry("Centered filled rectangles", 0)
  ]

  /** `isspace` in the C locale. */
  predicate IsSpace(c: char)
  {
    c == ' ' || c == '\t' || c == '\n' || c == '\U{000B}' || c == '\U{000C}' || c == '\r'
  }

  function SkipSpaces(s: string): string
  {
    if |s| > 0 && IsSpace(s[0]) then SkipSpaces(s[1..]) else s
  }

  /** The value of the leading decimal digits of `s`, appended to `acc`. */
  function LeadingDigits(s: string, acc: int): int
  {
    if |s| > 0 && '0' <= s[0] <= '9' then LeadingDigits(s[1..], 10 * acc + (s[0] as int - '0' as int))
    else acc
  }

  /** `atoi`: optional white space, an optional sign, then decimal digits up
      to the first other character; 0 when there are none. */
  function Atoi(s: string): int
  {
    var t := SkipSpaces(s);
    if |t| > 0 && t[0] == '-' then -LeadingDigits(t[1..], 0)
    else if |t| > 0 && t[0] == '+' then LeadingDigits(t[1..], 0)
    else LeadingDigits(t, 0)
  }

  /** `strstr(s, pattern) != NULL`. */
  predicate Contains(s: string, pattern: string)
  {
    |s| >= |pattern| && (s[..|pattern|] == pattern || Contains(s[1..], pattern))
  }

  /** `pattern` occurs in `s` starting at position `i`. */
  predicate OccursAt(s: string, pattern: string, i: int)
  {
    0 <= i && i + |pattern| <= |s| && s[i..i + |pattern|] == pattern
  }

  /** `strstr` finds `pattern` exactly when it occurs somewhere in `s`. */
  lemma {:induction false} ContainsOccurs(s: string, pattern: string)
    ensures Contains(s, pattern) <==> exists i :: OccursAt(s, pattern, i)
  {
    if |s| >= |pattern| {
      if s[..|pattern|] == pattern {
        assert OccursAt(s, pattern, 0);
      } else {
        ContainsOccurs(s[1..], pattern);
        if Contains(s[1..], pattern) {
          var i :| OccursAt(s[1..], pattern, i);
          assert s[1..][i..i + |pattern|] == s[i + 1..i + 1 + |pattern|];
          assert OccursAt(s, pattern, i + 1);
        }
        if exists i :: OccursAt(s, pattern, i) {
          var i :| OccursAt(s, pattern, i);
          assert i != 0;
          assert s[1..][i - 1..i - 1 + |pattern|] == s[i..i + |pattern|];
          assert OccursAt(s[1..], pattern, i - 1);
        }
      }
    }
  }

  predicate IsDigit(c: char) { '0' <= c <= '9' }

  /** The decimal numeral of `n`: its digits, most significant first, with no
      leading zeros. */
  function Decimal(n: nat): (s: string)
    ensures |s| > 0 && forall i :: 0 <= i < |s| ==> IsDigit(s[i])
  {
    if n < 10 then [('0' as int + n) as char]
    else Decimal(n / 10) + [('0' as int + n % 10) as char]
  }

  /** The digits of `s` stop at the first character that is not a digit. */
  lemma {:induction false} LeadingDigitsStop(s: string, rest: string, acc: int)
    requires forall i :: 0 <= i < |s| ==> IsDigit(s[i])
    requires rest == [] || !IsDigit(rest[0])
    ensures LeadingDigits(s + rest, acc) == LeadingDigits(s, acc)
  {
    if s != [] {
      assert (s + rest)[1..] == s[1..] + rest;
      LeadingDigitsStop(s[1..], rest, 10 * acc + (s[0] as int - '0' as int));
    }
  }

  /** One more digit at the end multiplies the value read so far by ten and
      adds that digit. */
  lemma {:induction false} LeadingDigitsSnoc(s: string, c: char, acc: int)
    requires forall i :: 0 <= i < |s| ==> IsDigit(s[i])
    requires IsDigit(c)
    ensures LeadingDigits(s + [c], acc) == 10 * LeadingDigits(s, acc) + (c as int - '0' as int)
  {
    if s != [] {
      assert (s + [c])[1..] == s[1..] + [c];
      LeadingDigitsSnoc(s[1..], c, 10 * acc + (s[0] as int - '0' as int));
    }
  }

  /** The digits of a numeral read back as its number. */
  lemma {:induction false} LeadingDigitsDecimal(n: nat)
    ensures LeadingDigits(Decimal(n), 0) == n
  {
    if n >= 10 {
      LeadingDigitsDecimal(n / 10);
      LeadingDigitsSnoc(Decimal(n / 10), ('0' as int + n % 10) as char, 0);
    }
  }

  /** `atoi` reads back the numeral of `n`, with or without a minus sign,
      whatever non-digit text follows it. */
  lemma AtoiDecimal(n: nat, rest: string)
    requires rest == [] || !IsDigit(rest[0])
    ensures Atoi(Decimal(n) + rest) == n
    ensures Atoi("-" + Decimal(n) + rest) == -(n as int)
  {
    var d := Decimal(n);
    LeadingDigitsDecimal(n);
    LeadingDigitsStop(d, rest, 0);
    assert SkipSpaces(d + rest) == d + rest;
    assert SkipSpaces("-" + d + rest) == "-" + d + rest;
    assert ("-" + d + rest)[1..] == d + rest;
  }

  /** A test number given as a plain numeral runs entry n - 1 when it is one
      of the seven tests and is reported as invalid otherwise. */
  lemma NumberArgument(n: nat)
    ensures ClassifyArg(Decimal(n)) ==
              if 1 <= n <= |TestTable| then RunTest(n - 1) else InvalidTestNumber(n)
  {
    AtoiDecimal(n, "");
    assert Decimal(n) + "" == Decimal(n);
  }

  /** What main_with_args does with one command-line argument. */
  datatype ArgAction =
    | RunTest(index: nat)               // run_test(fb, index)
    | InvalidTestNumber(testnum: int)   // destroy, report, return
    | ListTests                         // destroy, list the tests, return
    | Ignore                            // go on with the next argument

  /** The test-number check of main_with_args, as written: an argument whose
      `atoi` is not negative is a test number, accepted exactly when it is
      between 1 and the number of tests and then naming entry testnum - 1;
      only an argument with a negative `atoi` is looked at for "tests". */
  function ClassifyArg(arg: string): (a: ArgAction)
    ensures a.RunTest? <==> 1 <= Atoi(arg) <= |TestTable|
    ensures a.RunTest? ==> a.index == Atoi(arg) - 1 && a.index < |TestTable|
    ensures a.InvalidTestNumber? <==> Atoi(arg) == 0 || Atoi(arg) > |TestTable|
    ensures a.ListTests? <==> Atoi(arg) < 0 && Contains(arg, "tests")
  {
    if Atoi(arg) >= 0 then
      var testnum := Atoi(arg);
      if testnum > |TestTable| || testnum == 0 then InvalidTestNumber(testnum) else RunTest(testnum - 1)
    else if Contains(arg, "tests") then ListTests
    else Ignore
  }

  /** The option the program advertises for listing the tests, `--tests`,
      has `atoi` 0 and is therefore reported as an invalid test number. */
  lemma TestsOptionRejected()
    ensures Atoi("--tests") == 0
    ensures ClassifyArg("--tests") == InvalidTestNumber(0)
  {
    assert SkipSpaces("--tests") == "--tests";
    assert LeadingDigits("-tests", 0) == 0;
  }

  /** The check with the "tests" option looked for first, as the usage text
      intends. */
  function ClassifyArgFixed(arg: string): (a: ArgAction)
    ensures Contains(arg, "tests") ==> a == ListTests
    ensures !Contains(arg, "tests") ==> a == ClassifyArg(arg)
  {
    if Contains(arg, "tests") then ListTests
    else if Atoi(arg) >= 0 then
      var testnum := Atoi(arg);
      if testnum > |TestTable| || testnum == 0 then InvalidTestNumber(testnum) else RunTest(testnum - 1)
    else Ignore
  }

  /** With the fix, `--tests` lists the tests and a plain test number is
      still run. */
  lemma TestsOptionFixed()
    ensures ClassifyArgFixed("--tests") == ListTests
    ensures ClassifyArgFixed("3") == RunTest(2)
  {
    assert "--tests"[2..] == "tests";
    assert Contains("--tests"[1..], "tests");
    assert !Contains("3", "tests");
    assert Atoi("3") == 3 by {
      assert SkipSpaces("3") == "3";
      assert LeadingDigits("3", 0) == LeadingDigits("", 3);
    }
  }
}
