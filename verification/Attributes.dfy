/** The attribute byte of a cell, and what inverting a selection does to it. */
module Attributes {
  import opened Grid

  /** The attribute change of fbcon_invert_region, for the three attribute layouts. */
  function InvertCell(a: Cell, canDoColor: bool, hiFontMask: Cell): Cell {
    if !canDoColor then InvertMono(a) else if hiFontMask == 0x100 then InvertWide(a) else InvertColor(a)
  }

  function InvertMono(a: Cell): Cell {
    a ^ 0x0800
  }

  function InvertWide(a: Cell): Cell {
    (a & 0x11ff) | ((a & 0xe000) >> 4) | ((a & 0x0e00) << 4)
  }

  function InvertColor(a: Cell): Cell {
    (a & 0x88ff) | ((a & 0x7000) >> 4) | ((a & 0x0700) << 4)
  }

  /** `r` is `a` inverted: without colour the reverse bit is changed, and with colour foreground and
      background are exchanged, which lie one bit higher with a font of 512 characters; every other
      bit is kept. */
  ghost predicate Inverted(a: Cell, r: Cell, canDoColor: bool, hiFontMask: Cell) {
    if !canDoColor then ReverseChanged(a, r)
    else if hiFontMask == 0x100 then WideExchanged(a, r)
    else ColorExchanged(a, r)
  }

  ghost predicate ReverseChanged(a: Cell, r: Cell) {
    (r >> 11) & 1 != (a >> 11) & 1 && r & 0xf7ff == a & 0xf7ff
  }

  ghost predicate WideExchanged(a: Cell, r: Cell) {
    (r >> 13) & 7 == (a >> 9) & 7 && (r >> 9) & 7 == (a >> 13) & 7 && r & 0x11ff == a & 0x11ff
  }

  ghost predicate ColorExchanged(a: Cell, r: Cell) {
    (r >> 12) & 7 == (a >> 8) & 7 && (r >> 8) & 7 == (a >> 12) & 7 && r & 0x88ff == a & 0x88ff
  }

  lemma MonoInverted(a: Cell)
    ensures ReverseChanged(a, InvertMono(a))
  {
  }

  lemma MonoOnly(a: Cell, r: Cell)
    ensures ReverseChanged(a, r) ==> r == InvertMono(a)
  {
  }

  lemma WideInverted(a: Cell)
    ensures WideExchanged(a, InvertWide(a))
  {
  }

  lemma WideOnly(a: Cell, r: Cell)
    ensures WideExchanged(a, r) ==> r == InvertWide(a)
  {
  }

  lemma ColorInverted(a: Cell)
    ensures ColorExchanged(a, InvertColor(a))
  {
  }

  lemma ColorOnly(a: Cell, r: Cell)
    ensures ColorExchanged(a, r) ==> r == InvertColor(a)
  {
  }

  /** The masks and shifts do exactly that. */
  lemma InvertCellInverts(a: Cell, r: Cell, canDoColor: bool, hiFontMask: Cell)
    ensures Inverted(a, r, canDoColor, hiFontMask) <==> r == InvertCell(a, canDoColor, hiFontMask)
  {
    hide InvertMono, InvertWide, InvertColor, ReverseChanged, WideExchanged, ColorExchanged;
    MonoInverted(a);
    MonoOnly(a, r);
    WideInverted(a);
    WideOnly(a, r);
    ColorInverted(a);
    ColorOnly(a, r);
  }

  lemma MonoTwice(a: Cell)
    ensures InvertMono(InvertMono(a)) == a
  {
  }

  lemma WideTwice(a: Cell)
    ensures InvertWide(InvertWide(a)) == a
  {
  }

  lemma ColorTwice(a: Cell)
    ensures InvertColor(InvertColor(a)) == a
  {
  }

  lemma InvertCellTwice(a: Cell, canDoColor: bool, hiFontMask: Cell)
    ensures InvertCell(InvertCell(a, canDoColor, hiFontMask), canDoColor, hiFontMask) == a
  {
    hide InvertMono, InvertWide, InvertColor;
    MonoTwice(a);
    WideTwice(a);
    ColorTwice(a);
  }
}
