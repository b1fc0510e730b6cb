# clifb: the monochrome doubled-resolution framebuffer, in Dafny

clifb draws pictures in a text terminal. Its monochrome "doubled" framebuffer
is a flat, row-major grid of boolean pixels twice as wide and twice as tall as
the terminal. Refreshing it cuts the grid into 2x2 blocks. It packs each block
into a 4-bit code: left-top is bit 3, right-top bit 2, left-bottom bit 1 and
right-bottom bit 0. It draws the Unicode quadrant glyph that the code selects
in a 16-entry table at the block's character cell. It then flushes the screen
once and clears the grid.

This project models that framebuffer and proves what it does:

- `Symbols` models the symbol enum and the glyph table of `inc/clifb.h`. The
  table is checked against the quadrant meanings of the Unicode Block
  Elements chart (U+2580..U+259F).
- `PixelGrid` models the row-major addressing of `GET_MONO_FB_PIXEL` and
  `SET_MONO_FB_PIXEL`.
- `Device` models the terminal. It is an object that records every glyph
  drawn, string written and flush as a trace of events. A drawn glyph is
  recorded by its table index.
- `MonoFb` models `struct cli_mono_doubled_fb` and init, refresh and destroy
  from `src/mono_doubled_fb.c`. A refresh is specified by `Frame`: the
  sequence of draw events one refresh emits for a given grid.
- `Dispatch` models the type-tag dispatch of `src/clifb.c`.
- `Tests` models the drawing routines of the test program `src/tests/main.c`:
  - filled and outlined rectangles;
  - the pure-white, screen-border and checkerboard test pictures;
  - the check of a test number given on the command line.

The outcome of each `malloc`/`calloc` is a boolean parameter. An `Allocator`
object keeps the set of blocks allocated and not yet freed. This makes the
leak on the second allocation failure of init visible.

Some things a reader might expect, the code does not do, and neither does the
model:

- Init does not clean up when the pixel allocation fails. The struct stays
  allocated and screen mode stays on.
- The pixel macros check nothing, so out-of-bounds access is a precondition,
  not an error result.
- ncurses results are never checked, so there are no device errors.
- Destroy frees both blocks and calls `endwin`. It does not call `curs_set(1)`
  itself; restoring the cursor is left to `endwin`.
- A refresh draws every block, blank ones included.

The types, constants and plain definitions below carry no contract of their
own. The lemmas and methods in the table state what is proved about them.

| definition | what it is | source |
|---|---|---|
| `Symbols.MonoSymbolId`, `Symbols.Value`, `Symbols.SymbolMax` | `enum mono_doubled_fb_item_id`, the value C gives each enumerator, and `MONO_SYMBOL_MAX` | inc/clifb.h:19-69 |
| `Symbols.SymbolChar`, `Symbols.Glyph` | the table `mono_doubled_fb_item_symbol`, entry by entry and indexed by code | inc/clifb.h:84-149 |
| `MonoFb.FbType` | `fb_type_t` | inc/clifb.h:75-81 |
| `PixelGrid.Pixel` | `GET_MONO_FB_PIXEL` on a grid given as a sequence | inc/clifb.h:280-281 |
| `Tests.FpsTrace` | the events `test_fps` sends, given the frame-rate strings | src/tests/main.c:42-70 |
| `Tests.TestTable` | `tests[]`: names and delays | src/tests/main.c:200-236 |
| `Tests.Atoi` | `atoi` over white space, an optional sign and decimal digits | src/tests/main.c:256-257 |
| `Tests.Contains` | `strstr(argv[i], "tests") != NULL` | src/tests/main.c:266 |

## Model

| member | source | states |
|---|---|---|
| `Symbols.Code` | inc/clifb.h:13-70 | the code of a block is below MONO_SYMBOL_MAX, and it is 8 or more exactly when the left-top pixel is set |
| `Symbols.PackedSymbolId` | src/mono_doubled_fb.c:66-73 | building the byte `symbol_id` with `|=` and shifts of the four pixels gives the block's code |
| `Symbols.QuadOfCode` | inc/clifb.h:13-18 | unpacking the code of a block gives the block back, so no two blocks share a code |
| `Symbols.CodeOfQuad` | inc/clifb.h:68-69 | every code 0..15 is the code of the block its bits describe |
| `Symbols.IdOf` | inc/clifb.h:19-70 | for each code 0..15 there is the enumerator with that value |
| `Symbols.ValueMatchesName` | inc/clifb.h:19-70 | enumerator MONO_SYMBOL_abcd has value 8a+4b+2c+d, below MONO_SYMBOL_MAX = 16, and the sixteen values are distinct |
| `Symbols.GlyphInksCode` | inc/clifb.h:84-149 | the table entry for a code inks exactly the quadrants whose bits are set in the code |
| `Symbols.GlyphShowsBlock` | inc/clifb.h:84-149 | the glyph of a block's code inks exactly that block's set pixels |
| `Symbols.GlyphsDistinct` | inc/clifb.h:84-149 | two table entries are equal if and only if their codes are equal |
| `Symbols.NamedGlyphs` | inc/clifb.h:85-148 | code 0 is a space, 15 the full block, 0b1000 is ▘ and 0b1001 is ▚ |
| `PixelGrid.IndexInRange` | inc/clifb.h:280-281 | every in-bounds pixel's offset `uy * size.x + ux` lies inside the `size.y * size.x` buffer |
| `PixelGrid.IndexInjective` | inc/clifb.h:280-286 | distinct in-bounds pixels have distinct offsets |
| `PixelGrid.CellIsPixel` | inc/clifb.h:280-281 | every cell of the buffer is the offset of exactly one in-bounds pixel |
| `PixelGrid.WithPixel` | inc/clifb.h:283-286 | after SET(y, x, v), reading (y, x) gives v and every other in-bounds pixel is unchanged |
| `MonoFb.MonoDoubledFb.Zeroed` | src/mono_doubled_fb.c:24 | the struct after `memset(fb, 0, ...)`: symbol tag, zero size, no pixel buffer |
| `MonoFb.MonoDoubledFb.GetPixel` | inc/clifb.h:280-281 | GET reads pixel (uy, ux) of the grid, and is only defined on the grid |
| `MonoFb.MonoDoubledFb.SetPixel` | inc/clifb.h:283-286 | SET writes `value` at (uy, ux) in place, and is only defined on the grid |
| `MonoFb.MonoDoubledFb.ClearPixels` | src/mono_doubled_fb.c:82 | the `memset` of the pixels leaves every pixel false |
| `MonoFb.BlockCells` | src/mono_doubled_fb.c:70-73 | with even dimensions and an even (y, x), the reads at y+1 and x+1 stay on the grid and in the buffer and give the block's four pixels |
| `MonoFb.Frame` | src/mono_doubled_fb.c:64-65 | a refresh emits exactly (size.y/2)*(size.x/2) draws |
| `MonoFb.FrameAt` | src/mono_doubled_fb.c:64-76 | block (br, bc) is drawn as event br*(size.x/2)+bc, at cell (br, bc), with its own code |
| `MonoFb.FrameEventIsBlock` | src/mono_doubled_fb.c:75-76 | every event of a frame is a draw of some block at that block's cell |
| `MonoFb.FrameRowMajor` | src/mono_doubled_fb.c:64-65 | of two events, the earlier is on an earlier row of cells, or on the same row further left |
| `MonoFb.FrameShowsPixels` | src/mono_doubled_fb.c:70-76 | the glyph drawn for a block inks exactly that block's set pixels |
| `MonoFb.BlockDrawLocal` | src/mono_doubled_fb.c:70-76 | a block's draw depends only on its own four pixels |
| `MonoFb.UniformFrame` | src/mono_doubled_fb.c:82 | in a uniform grid every block gets code 15 (all true) or 0 (all false); since refresh clears the grid, a second refresh with no writes is all blank |
| `MonoFb.FourByFourFrame` | src/mono_doubled_fb.c:64-65 | a 4x4 grid's four blocks are drawn top row first, left to right |
| `MonoFb.DiagonalExampleFrame` | src/mono_doubled_fb.c:66-76 | with only pixels (0,0) and (1,1) of a 4x4 grid set, refresh draws ▚ at (0,0) and blanks at (0,1), (1,0) and (1,1) |
| `MonoFb.InitMonoDoubledFb` | src/mono_doubled_fb.c:11-45 | non-NULL exactly when both allocations succeed; then tag, sizes 2*cols and 2*rows, all pixels false, both blocks live. A failed struct allocation changes nothing. A failed pixel allocation returns NULL with screen mode on and the struct still live |
| `MonoFb.DestroyMonoDoubledFb` | src/mono_doubled_fb.c:52-56 | frees exactly the pixels and the struct and ends screen mode |
| `MonoFb.RefreshMonoDoubledFb` | src/mono_doubled_fb.c:63-83 | appends the frame of the grid as it was, then one flush, and leaves every pixel false |
| `Device.Terminal.constructor` | src/mono_doubled_fb.c:31-32 | a terminal of a fixed number of rows and columns, not in screen mode, nothing drawn |
| `Device.Terminal.InitScreen` | src/mono_doubled_fb.c:26-28 | `setlocale`, `initscr`, `curs_set(0)` enter screen mode and draw nothing |
| `Device.Terminal.EndWin` | src/mono_doubled_fb.c:55 | `endwin` leaves screen mode and draws nothing |
| `Device.Terminal.AddGlyph` | src/mono_doubled_fb.c:96-98 | one draw event at the given cell with the given table entry |
| `Device.Terminal.AddText` | src/mono_doubled_fb.c:100-102 | one string event at the given cell |
| `Device.Terminal.Refresh` | src/mono_doubled_fb.c:92-94 | one flush event |
| `Dispatch.InitFb` | src/clifb.c:17-27 | for the monochrome tag, status 0 and the init result even when it is NULL: screen mode on once the struct is allocated, nothing changed when it is not; for any other tag, NULL and -1 with nothing changed |
| `Dispatch.DestroyFb` | src/clifb.c:36-47 | the monochrome destroy exactly when the tag is monochrome; otherwise heap and screen unchanged |
| `Dispatch.RefreshFb` | src/clifb.c:55-66 | the monochrome refresh exactly when the tag is monochrome; otherwise grid and trace unchanged |
| `Tests.Paint` | src/tests/main.c:84-105 | painting a shape turns on exactly the on-grid pixels it covers and never clears a pixel |
| `Tests.DrawFilledRectangle` | src/tests/main.c:95-108 | turns on exactly the on-grid pixels of [uy, uy+h) x [ux, ux+w), leaves the others, and is safe for every position and size whose sums `uy + h` and `ux + w` fit in an `int` |
| `Tests.DrawRectangle` | src/tests/main.c:75-93 | turns on the outline: clipped first and last rows, the two side columns on the rows between; those side pixels need the caller to keep them on the grid |
| `Tests.DrawRectangleClipped` | src/tests/main.c:86-90 | with `&&` side guards the same outline is drawn, clipped, for every position and size whose sums `uy + h` and `ux + w` fit in an `int` |
| `Tests.OutlineIsBorder` | src/tests/main.c:75-93 | for width and height at least 1, the outline is the pixels of the rectangle on its first or last row or column |
| `Tests.SideGuardLetsThrough` | src/tests/main.c:87-90 | a concrete rectangle whose always-true side guard writes before the buffer, and onto a pixel outside the outline |
| `Tests.PaintEverything` | src/tests/main.c:15-17 | setting every pixel gives the all-true grid |
| `Tests.TestPureWhite` | src/tests/main.c:14-20 | the screen gets the frame of the all-true grid and one flush; the grid is left clear |
| `Tests.PureWhiteFrame` | src/tests/main.c:14-19 | that frame shows the full block at every cell |
| `Tests.TestScreenBorders` | src/tests/main.c:22-35 | the screen gets the frame of the grid with rows 0 and size.y-1 and columns 0 and size.x-1 turned on, then one flush |
| `Tests.BordersBlock` | src/tests/main.c:22-32 | on a clear grid each cell's glyph inks its upper, lower, left or right quadrants exactly when the cell is on the top, bottom, left or right edge |
| `Tests.Checker` | src/tests/main.c:45-57 | the checkerboard of a frame: a pixel is on when y+x is even on even frames and odd on odd frames |
| `Tests.CheckerFrame` | src/tests/main.c:45-59 | every cell of a checkerboard frame shows ▚ on even frames and ▞ on odd ones |
| `Tests.FpsTraceLength` | src/tests/main.c:42-70 | each of the frames costs one draw per cell plus two flushes and a string |
| `Tests.TestFps` | src/tests/main.c:37-73 | two hundred frames, each the alternating checkerboard's frame, a flush, the frame-rate string at (0,0) and a second flush; the grid is left clear |
| `Tests.ContainsOccurs` | src/tests/main.c:266 | the `strstr` test succeeds exactly when "tests" occurs at some position of the argument |
| `Tests.AtoiDecimal` | src/tests/main.c:256-257 | `atoi` reads the numeral of n back as n, and with a leading minus sign as -n, whatever non-digit text follows |
| `Tests.NumberArgument` | src/tests/main.c:256-265 | the numeral n runs entry n - 1 when 1 <= n <= 7 and is an invalid test number otherwise |
| `Tests.ClassifyArg` | src/tests/main.c:256-266 | an argument runs test `atoi - 1` exactly when its `atoi` is 1..7, is an invalid number exactly when it is 0 or above 7, and lists the tests exactly when its `atoi` is negative and it contains "tests" |
| `Tests.TestsOptionRejected` | src/tests/main.c:256-263 | the advertised `--tests` has `atoi` 0 and is reported as invalid test number 0 |
| `Tests.ClassifyArgFixed` | src/tests/main.c:256-275 | with "tests" looked for first, such an argument lists the tests and every other argument is handled as before |
| `Tests.TestsOptionFixed` | src/tests/main.c:266-274 | with the fix, `--tests` lists the tests and `3` runs entry 2 |

## Left out

- ncurses itself is not modelled; it is the `Terminal` trace. `getmaxx`/`getmaxy`
  are the terminal's fixed `cols`/`rows`. `setlocale` and `curs_set` are part
  of `InitScreen`. Their results are never checked by the code.
- The `cchar_t` representation and the `A_NORMAL` attribute are not modelled.
  A glyph is its table index, and its character is given by `Glyph`.
- The `fprintf` error messages of init and of the dispatchers are output only.
- The `window` field of the struct is never set or read.
- The symbol framebuffer (`struct cli_symbol_fb`, `symbol_fb_item_t`,
  `color_t`) is declared but has no logic. Only its tag takes part, as the
  rejected case of the dispatch.
- `coord_t` is `int16_t`, and `size.y * size.x` is `int` arithmetic. Their
  overflow for huge terminals is not modelled, and neither is overflow in `atoi`.
- The `memset` of refresh clears `size.y * size.x` bytes. This is one per
  `bool` where `sizeof(bool)` is 1, and is modelled as clearing every pixel.
- `MonoFb.MonoDoubledFb.SetPixel`: requires 0 <= uy < size.y and
  0 <= ux < size.x. C only needs the flat offset to fall inside the buffer,
  so (1, -1) would silently alias pixel (0, size.x - 1).
- `MonoFb.MonoDoubledFb.GetPixel`: requires the same two-dimensional bounds as
  SetPixel.
- The loop bounds `uy + h`, `ux + w` and the column `ux + w - 1` of the draw
  routines are `int` sums in C, and signed overflow there is undefined (for
  instance `uy = INT_MAX, h = 1`). The model's integers are unbounded, so it
  assumes these sums fit in an `int`.
- `Tests.DrawRectangle`: requires both side columns to be on the grid whenever
  an interior row is. Without that, the C code writes outside the grid (see
  Findings).
- `Tests.DrawRectangle`: for a width below 1, the rows between the first and
  the last still get the side columns ux and ux + w - 1. The model's outline
  includes them, and `OutlineIsBorder` covers only widths of at least 1.
- `Tests.TestScreenBorders`: requires a grid with rows between the first and
  the last to be at least one pixel wide. Otherwise the C code writes column 0
  of an empty row.
- `Dispatch.InitFb`: does not repeat the leak that init shows on a failed
  pixel allocation. It only calls init, so `InitMonoDoubledFb` states the leak.
- `fb_type_t` values outside the enum are not modelled. The dispatchers'
  default branch is reached by the symbol framebuffer tag.
- Passing NULL to `destroy_fb` or `refresh_fb` after a failed init is not
  modelled. The model's framebuffer parameters are never null.
- Timing in `test_fps` is not modelled: `gettimeofday`, `timersub` and the
  float frame-rate text. The string shown after each frame is a parameter.
  The code's `timersub(&sv, &ev, &diff)` computes start minus end, a negative
  interval, but this only affects that text.
- The unchecked `malloc(40)` and `free` of the text buffer in `test_fps` are
  not modelled.
- `run_test`, `main` and the loop of `main_with_args` over `argv` are not
  modelled. They print, sleep, index the test table and call the test
  functions. Only the decision taken for one argument is modelled, as
  `ClassifyArg`.
- The animation tests `test_rects`, `test_frects`, `test_crects` and
  `test_cfrects` are not modelled. They consist of `usleep` and repeated calls
  of the modelled draw routines and `refresh_fb`.

## Findings

| source | as written | input that shows it | evidently intended | confidence | as-written member | corrected member |
|---|---|---|---|---|---|---|
| src/tests/main.c:87-90 | side guards `ux < size.x \|\| ux >= 0` and `(ux + w - 1) < size.x \|\| (ux + w - 1) >= 0` always hold | 4x4 grid, ux = -1, uy = -1, w = 3, h = 4: row 0 is an interior row and its left side is written at offset -1, before the buffer; row 1 writes pixel (0, 3) | `&&`, clipping the side pixels like the first and last rows | not executed | `Tests.DrawRectangle`, `Tests.SideGuardLetsThrough` | `Tests.DrawRectangleClipped` |
| src/tests/main.c:256-266 | "tests" is looked for only in arguments whose `atoi` is negative | the argument `--tests`, which the usage text at src/tests/main.c:294 advertises: `atoi` gives 0, so it is reported as invalid test number 0 | an argument containing "tests" lists the tests | not executed | `Tests.ClassifyArg`, `Tests.TestsOptionRejected` | `Tests.ClassifyArgFixed`, `Tests.TestsOptionFixed` |
