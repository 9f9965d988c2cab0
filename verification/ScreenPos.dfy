/** Positions on a scrolled-back screen.  Memory is addressed by 16-bit cell here, so a row
    is `cols` units long; the ring pointers are the ones of SoftbackRing in these units. */
module ScreenPos {
  import opened Grid
  import opened SoftbackRing
  import opened Arith
  import opened Attributes

  datatype Layout = Layout(
    foreground: bool,   // vc_num == fg_console
    cols: nat,          // vc_size_row / 2
    rows: nat,
    origin: nat,        // vc_origin; vc_scr_end is origin + rows * cols
    buf: nat,           // softback_buf
    end: nat,           // softback_end
    sin: nat,           // softback_in
    curr: nat,          // softback_curr
    lines: nat)         // softback_lines
  {
    function Cells(): nat {
      rows * cols
    }

    ghost predicate Valid() {
      && 0 < cols && buf <= sin < end && buf <= curr < end
      && (curr - buf) % cols == 0 && (end - buf) % cols == 0
      && Apart(origin, Cells(), buf, end)
      && Dist(buf, end, curr, sin) == lines * cols
    }

    /** Only the foreground console is scrolled back. */
    function Back(): nat {
      if foreground then lines else 0
    }

    /** fbcon_screen_pos. */
    function ScreenPos(offset: nat): (p: int)
      requires 0 < cols
    {
      if !foreground || lines == 0 then origin + offset
      else
        var line := offset / cols;
        if line >= lines then origin + offset - lines * cols
        else
          var p := curr + offset;
          if p >= end then p + buf - end else p
    }

    /** fbcon_getxy: column, row, and the position of the start of the next row. */
    function GetXY(pos: int): (r: (int, int, int))
      requires 0 < cols
    {
      if origin <= pos < origin + Cells() then
        var offset := pos - origin;
        var x, y := offset % cols, offset / cols;
        (x, if foreground then y + lines else y, pos + cols - x)
      else if foreground && lines != 0 then
        var offset := pos - curr;
        var around := if pos < curr then offset + end - buf else offset;
        var x, y := around % cols, around / cols;
        var next := pos + cols - x;
        var wrapped := if next == end then buf else next;
        (x, y, if wrapped == sin then origin else wrapped)
      else
        (0, 0, origin)
    }

    /** A position is the address of its cell in the view: ring cells first, then the screen; on a
        console in the background, whose view is its screen, of the cell of the screen. */
    lemma ScreenPosIsView(offset: nat)
      requires Valid()
      ensures ScreenPos(offset) ==
              if foreground then ViewPtr(origin, buf, end, sin, curr, offset) else origin + offset
    {
      RowOf(offset, cols, lines);
    }

    /** A view row in the ring is row aligned, so it does not straddle the wrap. */
    lemma RingRow(y: nat, start: nat, pos: int)
      requires Valid() && y < lines && start == y * cols
      requires pos == if curr + start < end then curr + start else curr + start - (end - buf)
      ensures start + cols <= lines * cols && buf <= pos && pos + cols <= end
    {
      CellInside(0, y, cols, lines);
      RowAligned(curr - buf, y, end - buf, cols);
      RowFits(pos - buf, end - buf, cols);
    }

    /** fbcon_getxy on a cell of view row `y` in the ring, which starts at `start` cells. */
    lemma GetXYRing(x: nat, y: nat, start: nat, total: nat, pos: int)
      requires Valid() && foreground && x < cols && y < lines && start == y * cols && total == lines * cols
      requires pos == if curr + start < end then curr + start else curr + start - (end - buf)
      ensures GetXY(pos + x) ==
              (x, y, if start + cols < total then (if pos + cols == end then buf else pos + cols) else origin)
      ensures start + cols <= total && pos + cols <= end
    {
      RingRow(y, start, pos);
      DivRow(x, y, cols);
      var around := if pos + x < curr then pos + x - curr + (end - buf) else pos + x - curr;
      assert around == start + x;
      var next := if pos + cols == end then buf else pos + cols;
      assert next == sin <==> start + cols == total;
    }

    /** fbcon_getxy on a cell of view row `y` below the ring. */
    lemma GetXYScreen(x: nat, y: nat, start: nat, total: nat)
      requires Valid() && x < cols && Back() <= y < rows && start == y * cols && total == Back() * cols
      ensures total <= start && GetXY(origin + start + x - total) == (x, y, origin + start + cols - total)
    {
      RowsApart(y, Back(), cols);
      CellInside(x, y - Back(), cols, rows);
      DivRow(x, y - Back(), cols);
    }

    /** Any other position, of a console that is not scrolled back, is taken for the first cell. */
    lemma GetXYElsewhere(pos: int)
      requires Valid() && Back() == 0 && !(origin <= pos < origin + Cells())
      ensures GetXY(pos) == (0, 0, origin)
    {
    }

    /** fbcon_getxy inverts fbcon_screen_pos on every visible cell, in the ring, across its wrap and
        on the screen, and names the start of the next row of the view. */
    lemma GetXYInverts(x: nat, y: nat)
      requires Valid() && x < cols && y < rows
      ensures GetXY(ScreenPos(y * cols + x)) == (x, y, ScreenPos((y + 1) * cols))
    {
      hide GetXY, ScreenPos;
      var start, total := y * cols, Back() * cols;
      CellInside(x, y, cols, rows);
      assert start + cols == (y + 1) * cols;
      ScreenPosIsView(start + x);
      ScreenPosIsView(start + cols);
      if y < Back() {
        CellInside(x, y, cols, lines);
        var pos := if curr + start < end then curr + start else curr + start - (end - buf);
        GetXYRing(x, y, start, total, pos);
      } else {
        GetXYScreen(x, y, start, total);
      }
    }
  }

  // ----- inverting a region --------------------------------------------------

  /** The view cells [from, from + count) are on the screen or in the ring. */
  ghost predicate InView(l: Layout, size: nat, from: nat, count: nat) {
    && l.buf <= l.sin < l.end <= size && l.buf <= l.curr < l.end && Apart(l.origin, l.Cells(), l.buf, l.end)
    && l.origin + l.Cells() <= size && from + count <= l.Cells()
  }

  ghost predicate OnPath(l: Layout, from: nat, to: nat, a: int)
    requires l.buf <= l.curr < l.end && l.buf <= l.sin < l.end
  {
    exists k: nat :: from <= k < to && a == ViewPtr(l.origin, l.buf, l.end, l.sin, l.curr, k)
  }

  /** Memory with the cells of a stretch of the view inverted. */
  ghost function InvertedRegion(m: seq<Cell>, l: Layout, from: nat, count: nat,
                                canDoColor: bool, hiFontMask: Cell): (r: seq<Cell>)
    requires InView(l, |m|, from, count)
    ensures |r| == |m|
  {
    seq(|m|, a requires 0 <= a < |m| =>
      if OnPath(l, from, from + count, a) then InvertCell(m[a], canDoColor, hiFontMask) else m[a])
  }

  /** fbcon_invert_region on a stretch of the view: precisely its cells are inverted. */
  method InvertRegion(mem: array<Cell>, l: Layout, p0: nat, cnt0: nat, canDoColor: bool,
                      hiFontMask: Cell, ghost from: nat)
    requires InView(l, mem.Length, from, cnt0)
    requires p0 == ViewPtr(l.origin, l.buf, l.end, l.sin, l.curr, from)
    modifies mem
    ensures forall a :: 0 <= a < mem.Length ==>
              if OnPath(l, from, from + cnt0, a) then Inverted(old(mem[a]), mem[a], canDoColor, hiFontMask)
              else mem[a] == old(mem[a])
    ensures mem[..] == InvertedRegion(old(mem[..]), l, from, cnt0, canDoColor, hiFontMask)
  {
    hide Inverted, InvertCell;
    var p, cnt := p0, cnt0;
    ghost var k := from;
    while cnt > 0
      invariant 0 <= cnt && k == from + cnt0 - cnt
      invariant 0 < cnt ==> p == ViewPtr(l.origin, l.buf, l.end, l.sin, l.curr, k)
      invariant forall a :: 0 <= a < mem.Length ==>
                  mem[a] == if OnPath(l, from, k, a) then InvertCell(old(mem[a]), canDoColor, hiFontMask)
                            else old(mem[a])
    {
      cnt := cnt - 1;
      PathStep(l, from, k);
      ghost var q := p;
      mem[p] := InvertCell(mem[p], canDoColor, hiFontMask);
      p := p + 1;
      if p == l.end {
        p := l.buf;
      }
      if p == l.sin {
        p := l.origin;
      }
      if 0 < cnt {
        NextViewPtr(l.origin, l.Cells(), l.buf, l.end, l.sin, l.curr, k);
      }
      k := k + 1;
    }
    forall a | 0 <= a < mem.Length && OnPath(l, from, from + cnt0, a)
      ensures Inverted(old(mem[a]), mem[a], canDoColor, hiFontMask)
    {
      InvertCellInverts(old(mem[a]), mem[a], canDoColor, hiFontMask);
    }
  }

  /** A view cell is not visited twice. */
  lemma PathStep(l: Layout, from: nat, k: nat)
    requires l.buf <= l.sin < l.end && l.buf <= l.curr < l.end && Apart(l.origin, l.Cells(), l.buf, l.end)
    requires from <= k < l.Cells()
    ensures var p := ViewPtr(l.origin, l.buf, l.end, l.sin, l.curr, k);
            !OnPath(l, from, k, p) && forall a :: OnPath(l, from, k + 1, a) <==> OnPath(l, from, k, a) || a == p
  {
  }

  /** Inverting the same region twice restores every cell. */
  lemma InvertedRegionTwice(m: seq<Cell>, l: Layout, from: nat, count: nat, canDoColor: bool, hiFontMask: Cell)
    requires InView(l, |m|, from, count)
    ensures InvertedRegion(InvertedRegion(m, l, from, count, canDoColor, hiFontMask),
                           l, from, count, canDoColor, hiFontMask) == m
  {
    var once := InvertedRegion(m, l, from, count, canDoColor, hiFontMask);
    var twice := InvertedRegion(once, l, from, count, canDoColor, hiFontMask);
    forall a | 0 <= a < |m| ensures twice[a] == m[a] {
      InvertCellTwice(m[a], canDoColor, hiFontMask);
    }
  }

  lemma DivRow(x: nat, y: nat, cols: nat)
    requires x < cols
    ensures (y * cols + x) / cols == y && (y * cols + x) % cols == x
  {
    DivUnique(y * cols + x, cols, y);
  }

  lemma RowOf(offset: nat, cols: nat, lines: nat)
    requires 0 < cols
    ensures offset / cols >= lines <==> offset >= lines * cols
  {
    var d := offset / cols;
    assert offset == d * cols + offset % cols;
    if d >= lines {
      MulMono(lines, d, cols);
    } else {
      MulMono(d + 1, lines, cols);
    }
  }

  lemma CellInside(x: nat, y: nat, cols: nat, rows: nat)
    requires x < cols && y < rows
    ensures y * cols + x < (y + 1) * cols <= rows * cols && (y + 1) * cols == y * cols + cols
  {
    MulMono(y + 1, rows, cols);
  }

  lemma RowsApart(y: nat, lines: nat, cols: nat)
    requires lines <= y
    ensures y * cols - lines * cols == (y - lines) * cols && lines * cols <= y * cols
  {
    MulMono(lines, y, cols);
  }

  /** A row that starts inside a ring of whole rows ends inside it. */
  lemma RowFits(start: nat, len: nat, cols: nat)
    requires 0 < cols && start % cols == 0 && len % cols == 0 && start < len
    ensures start + cols <= len
  {
    var r, n := start / cols, len / cols;
    assert start == r * cols && len == n * cols;
    if n <= r {
      MulMono(n, r, cols);
    } else {
      MulMono(r + 1, n, cols);
    }
  }

  /** Rows keep their alignment as they are stepped, and around the ring. */
  lemma RowAligned(start: nat, y: nat, len: nat, cols: nat)
    requires 0 < cols && start % cols == 0 && len % cols == 0
    ensures (start + y * cols) % cols == 0
    ensures len <= start + y * cols ==> (start + y * cols - len) % cols == 0
  {
    var r, n := start / cols, len / cols;
    DivBounds(start, cols);
    DivBounds(len, cols);
    MulAdd(r, y, cols);
    MulMod(r + y, cols);
    if len <= start + y * cols {
      if n > r + y {
        MulMono(r + y + 1, n, cols);
        OneMore(r + y, cols);
      }
      MulAdd(r + y, n, cols);
      MulMod(r + y - n, cols);
    }
  }
}
