/** The monochrome symbol ids and the glyph table of the doubled-resolution
    framebuffer (inc/clifb.h).  A 2x2 block of pixels is described by four
    booleans -- left-top, right-top, left-bottom, right-bottom -- packed into
    a 4-bit code that indexes a table of sixteen Unicode block elements. */
module Symbols {

  /** The four pixels of one 2x2 block, in the order the symbol names spell them. */
  datatype Quad = Quad(lt: bool, rt: bool, lb: bool, rb: bool)

  function Bit(b: bool): nat { if b then 1 else 0 }

  /** The quantization code of a block: left-top is bit 3, right-bottom bit 0. */
  function Code(q: Quad): (c: nat)
    ensures c < SymbolMax
    ensures (c >= 8) == q.lt
  {
    8 * Bit(q.lt) + 4 * Bit(q.rt) + 2 * Bit(q.lb) + Bit(q.rb)
  }

  /** `(pixel & 1)` for a C `bool` pixel, as one byte. */
  function BitOf(b: bool): bv8 { if b then 1 else 0 }

  /** Building the byte `symbol_id` with `|=` and shifts, as refresh does,
      yields the code of the block. */
  lemma PackedSymbolId(q: Quad)
    ensures ((((0 as bv8) | (BitOf(q.lt) << 3)) | (BitOf(q.rt) << 2)) | (BitOf(q.lb) << 1)
              | (BitOf(q.rb) << 0)) as int == Code(q)
  {
  }

  /** Reads the four bits of a code back out, most significant first. */
  function QuadOf(c: nat): Quad
    requires c < SymbolMax
  {
    Quad(c / 8 % 2 == 1, c / 4 % 2 == 1, c / 2 % 2 == 1, c % 2 == 1)
  }

  /** Unpacking the code of a block gives the block back: no two blocks
      share a code. */
  lemma QuadOfCode(q: Quad)
    ensures QuadOf(Code(q)) == q
  {
  }

  /** Packing the bits of a code gives the code back: every code 0..15
      describes a block. */
  lemma CodeOfQuad(c: nat)
    requires c < SymbolMax
    ensures Code(QuadOf(c)) == c
  {
    var b3, b2, b1, b0 := c / 8 % 2, c / 4 % 2, c / 2 % 2, c % 2;
    assert c == 8 * b3 + 4 * b2 + 2 * b1 + b0;
  }

  /** `enum mono_doubled_fb_item_id`, without its final counter MONO_SYMBOL_MAX.
      The digits of each name tell which of LT, RT, LB, RB is filled. */
  datatype MonoSymbolId =
    | Symbol0000 | Symbol0001 | Symbol0010 | Symbol0011
    | Symbol0100 | Symbol0101 | Symbol0110 | Symbol0111
    | Symbol1000 | Symbol1001 | Symbol1010 | Symbol1011
    | Symbol1100 | Symbol1101 | Symbol1110 | Symbol1111

  /** MONO_SYMBOL_MAX: the enumerator after the sixteen symbols, and the length of the glyph table. */
  const SymbolMax: nat := 16

  /** The value C gives each enumerator: its position in the declaration. */
  function Value(id: MonoSymbolId): nat
  {
    match id
    case Symbol0000 => 0  case Symbol0001 => 1  case Symbol0010 => 2  case Symbol0011 => 3
    case Symbol0100 => 4  case Symbol0101 => 5  case Symbol0110 => 6  case Symbol0111 => 7
    case Symbol1000 => 8  case Symbol1001 => 9  case Symbol1010 => 10 case Symbol1011 => 11
    case Symbol1100 => 12 case Symbol1101 => 13 case Symbol1110 => 14 case Symbol1111 => 15
  }

  /** The enumerator whose value is `c`; used when a computed code indexes the table. */
  function IdOf(c: nat): (id: MonoSymbolId)
    requires c < SymbolMax
    ensures Value(id) == c
  {
    [Symbol0000, Symbol0001, Symbol0010, Symbol0011,
     Symbol0100, Symbol0101, Symbol0110, Symbol0111,
     Symbol1000, Symbol1001, Symbol1010, Symbol1011,
     Symbol1100, Symbol1101, Symbol1110, Symbol1111][c]
  }

  /** What the name of an enumerator says: digit by digit, LT RT LB RB. */
  function NamedQuad(id: MonoSymbolId): Quad
  {
    match id
    case Symbol0000 => Quad(false, false, false, false)
    case Symbol0001 => Quad(false, false, false, true)
    case Symbol0010 => Quad(false, false, true, false)
    case Symbol0011 => Quad(false, false, true, true)
    case Symbol0100 => Quad(false, true, false, false)
    case Symbol0101 => Quad(false, true, false, true)
    case Symbol0110 => Quad(false, true, true, false)
    case Symbol0111 => Quad(false, true, true, true)
    case Symbol1000 => Quad(true, false, false, false)
    case Symbol1001 => Quad(true, false, false, true)
    case Symbol1010 => Quad(true, false, true, false)
    case Symbol1011 => Quad(true, false, true, true)
    case Symbol1100 => Quad(true, true, false, false)
    case Symbol1101 => Quad(true, true, false, true)
    case Symbol1110 => Quad(true, true, true, false)
    case Symbol1111 => Quad(true, true, true, true)
  }

  /** The declaration order agrees with the names: MONO_SYMBOL_abcd has value
      8a + 4b + 2c + d, so packing pixels into a code selects the enumerator
      named after those pixels; and the sixteen values are exactly 0..15. */
  lemma ValueMatchesName(id: MonoSymbolId)
    ensures Value(id) == Code(NamedQuad(id)) < SymbolMax
    ensures IdOf(Value(id)) == id
  {
  }

  /** The character of each designated initializer of `mono_doubled_fb_item_symbol`. */
  function SymbolChar(id: MonoSymbolId): char
  {
    match id
    case Symbol0000 => ' '
    case Symbol0001 => '\U{2597}'   // ▗
    case Symbol0010 => '\U{2596}'   // ▖
    case Symbol0011 => '\U{2584}'   // ▄
    case Symbol0100 => '\U{259D}'   // ▝
    case Symbol0101 => '\U{2590}'   // ▐
    case Symbol0110 => '\U{259E}'   // ▞
    case Symbol0111 => '\U{259F}'   // ▟
    case Symbol1000 => '\U{2598}'   // ▘
    case Symbol1001 => '\U{259A}'   // ▚
    case Symbol1010 => '\U{258C}'   // ▌
    case Symbol1011 => '\U{2599}'   // ▙
    case Symbol1100 => '\U{2580}'   // ▀
    case Symbol1101 => '\U{259C}'   // ▜
    case Symbol1110 => '\U{259B}'   // ▛
    case Symbol1111 => '\U{2588}'   // █
  }

  /** `mono_doubled_fb_item_symbol[code]`. */
  function Glyph(code: nat): char
    requires code < SymbolMax
  {
    SymbolChar(IdOf(code))
  }

  /** Which quadrants of a character cell a character inks, as the Unicode
      Block Elements chart (U+2580..U+259F) names them; None for characters
      that are not one of the sixteen quadrant patterns. */
  function Inked(ch: char): Option<Quad>
  {
    match ch
    case ' '        => Some(Quad(false, false, false, false))  // SPACE
    case '\U{2597}' => Some(Quad(false, false, false, true))   // QUADRANT LOWER RIGHT
    case '\U{2596}' => Some(Quad(false, false, true, false))   // QUADRANT LOWER LEFT
    case '\U{2584}' => Some(Quad(false, false, true, true))    // LOWER HALF BLOCK
    case '\U{259D}' => Some(Quad(false, true, false, false))   // QUADRANT UPPER RIGHT
    case '\U{2590}' => Some(Quad(false, true, false, true))    // RIGHT HALF BLOCK
    case '\U{259E}' => Some(Quad(false, true, true, false))    // QUADRANT UPPER RIGHT AND LOWER LEFT
    case '\U{259F}' => Some(Quad(false, true, true, true))     // QUADRANT UPPER RIGHT AND LOWER LEFT AND LOWER RIGHT
    case '\U{2598}' => Some(Quad(true, false, false, false))   // QUADRANT UPPER LEFT
    case '\U{259A}' => Some(Quad(true, false, false, true))    // QUADRANT UPPER LEFT AND LOWER RIGHT
    case '\U{258C}' => Some(Quad(true, false, true, false))    // LEFT HALF BLOCK
    case '\U{2599}' => Some(Quad(true, false, true, true))     // QUADRANT UPPER LEFT AND LOWER LEFT AND LOWER RIGHT
    case '\U{2580}' => Some(Quad(true, true, false, false))    // UPPER HALF BLOCK
    case '\U{259C}' => Some(Quad(true, true, false, true))     // QUADRANT UPPER LEFT AND UPPER RIGHT AND LOWER RIGHT
    case '\U{259B}' => Some(Quad(true, true, true, false))     // QUADRANT UPPER LEFT AND UPPER RIGHT AND LOWER LEFT
    case '\U{2588}' => Some(Quad(true, true, true, true))      // FULL BLOCK
    case _ => None
  }

  datatype Option<T> = None | Some(value: T)

  /** The glyph the table holds for a code inks exactly the quadrants whose
      bits are set in that code. */
  lemma GlyphInksCode(c: nat)
    requires c < SymbolMax
    ensures Inked(Glyph(c)) == Some(QuadOf(c))
  {
    var id := IdOf(c);
    ValueMatchesName(id);
    QuadOfCode(NamedQuad(id));
    assert QuadOf(c) == NamedQuad(id);
  }

  /** The glyph drawn for a block shows that block: its inked quadrants are the block's pixels. */
  lemma GlyphShowsBlock(q: Quad)
    ensures Inked(Glyph(Code(q))) == Some(q)
  {
    GlyphInksCode(Code(q));
    QuadOfCode(q);
  }

  /** The sixteen glyphs are pairwise distinct, so a drawn glyph determines its code. */
  lemma GlyphsDistinct(c1: nat, c2: nat)
    requires c1 < SymbolMax && c2 < SymbolMax
    ensures Glyph(c1) == Glyph(c2) <==> c1 == c2
  {
    GlyphInksCode(c1);
    GlyphInksCode(c2);
    CodeOfQuad(c1);
    CodeOfQuad(c2);
  }

  /** The entries for codes 0, 0b1000, 0b1001 and 0b1111: blank, ▘, ▚ and
      the full block. */
  lemma NamedGlyphs()
    ensures Glyph(0) == ' ' && Glyph(15) == '\U{2588}'
    ensures Glyph(8) == '\U{2598}' && Glyph(9) == '\U{259A}'
  {
  }
}
