/** The terminal the framebuffer draws on.  The C code reaches ncurses
    through the global `stdscr`; here that screen is an object passed to the
    operations that use it.  It reports a fixed size in character cells and
    records every glyph written and every flush in `trace`, so that what a
    refresh puts on the screen, and in which order, can be stated. */
module Device {
  import opened Symbols

  /** One observable screen operation: a glyph put at a character cell, a
      string put at a character cell, or a flush.  A draw receives a pointer
      into the glyph table; it is recorded as the index `code` of that entry,
      and the cell shows `Glyph(code)`. */
  datatype Event = Draw(row: int, col: int, code: nat) | Text(row: int, col: int, text: string) | Flush

  class Terminal {
    /** `getmaxy(stdscr)` and `getmaxx(stdscr)`: the size in character cells. */
    const rows: nat
    const cols: nat
    /** Whether curses screen mode is on (between `initscr` and `endwin`). */
    var inScreenMode: bool
    /** Everything drawn and flushed so far, oldest first. */
    var trace: seq<Event>

    constructor (rows: nat, cols: nat)
      ensures this.rows == rows && this.cols == cols
      ensures !inScreenMode && trace == []
    {
      this.rows := rows;
      this.cols := cols;
      inScreenMode := false;
      trace := [];
    }

    /** `setlocale`, `initscr` and `curs_set(0)`: enter screen mode; nothing is drawn. */
    method InitScreen()
      modifies this
      ensures inScreenMode && trace == old(trace)
    {
      inScreenMode := true;
    }

    /** `endwin`: leave screen mode; nothing is drawn. */
    method EndWin()
      modifies this
      ensures !inScreenMode && trace == old(trace)
    {
      inScreenMode := false;
    }

    /** `mvadd_wch(row, col, &mono_doubled_fb_item_symbol[code])`: one glyph
        at one character cell, not yet flushed. */
    method AddGlyph(row: int, col: int, code: nat)
      requires code < SymbolMax
      modifies this
      ensures trace == old(trace) + [Draw(row, col, code)]
      ensures inScreenMode == old(inScreenMode)
    {
      trace := trace + [Draw(row, col, code)];
    }

    /** `mvwaddstr(stdscr, row, col, text)`: a string starting at one character cell, not yet flushed. */
    method AddText(row: int, col: int, text: string)
      modifies this
      ensures trace == old(trace) + [Text(row, col, text)]
      ensures inScreenMode == old(inScreenMode)
    {
      trace := trace + [Text(row, col, text)];
    }

    /** `wrefresh(stdscr)`: make the pending glyphs visible. */
    method Refresh()
      modifies this
      ensures trace == old(trace) + [Flush]
      ensures inScreenMode == old(inScreenMode)
    {
      trace := trace + [Flush];
    }
  }
}
