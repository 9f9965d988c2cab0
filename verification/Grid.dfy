/** Character cells, rows of cells, and the rectangle operations a frame buffer
    console asks its display driver for.  A grid is indexed by row; the rows of a
    grid all have the same number of columns. */
module Grid {
  import opened Arith

  /** One 16-bit screen cell: the character in the low byte, the attribute above it. */
  type Cell = bv16

  type Row = seq<Cell>

  /** The attribute byte of a cell, where it is in the cell. */
  function Attr(c: Cell): Cell {
    c & 0xff00
  }

  predicate IsGrid(g: seq<Row>, cols: nat) {
    forall y :: 0 <= y < |g| ==> |g[y]| == cols
  }

  function BlankRow(cols: nat, erase: Cell): (r: Row)
    ensures |r| == cols
  {
    seq(cols, _ => erase)
  }

  /** Row `d` with `w` cells from column `dx` on taken from column `sx` on of row `s`. */
  function CopyCols(d: Row, s: Row, sx: nat, dx: nat, w: nat): (r: Row)
    requires dx + w <= |d| && sx + w <= |s|
    ensures |r| == |d|
  {
    d[..dx] + s[sx..sx + w] + d[dx + w..]
  }

  /** Cells with the same attribute can be drawn with the attribute of one of them. */
  lemma SameAttr(c: Cell, d: Cell)
    requires Attr(c) == Attr(d)
    ensures (c & 0x00ff) | (d & 0xff00) == c
  {
  }

  /** The rectangle copy of a frame buffer driver: every source cell is read before
      any destination cell is written. */
  function CopyRect(g: seq<Row>, cols: nat, sy: nat, sx: nat, dy: nat, dx: nat, h: nat, w: nat): (r: seq<Row>)
    requires IsGrid(g, cols)
    requires sy + h <= |g| && dy + h <= |g| && sx + w <= cols && dx + w <= cols
    ensures |r| == |g| && IsGrid(r, cols)
  {
    seq(|g|, y requires 0 <= y < |g| => CopiedTo(g, cols, sy, sx, dy, dx, h, w, y))
  }

  /** Row `y` after that copy. */
  function CopiedTo(g: seq<Row>, cols: nat, sy: nat, sx: nat, dy: nat, dx: nat, h: nat, w: nat, y: nat): (r: Row)
    requires IsGrid(g, cols) && y < |g|
    requires sy + h <= |g| && dy + h <= |g| && sx + w <= cols && dx + w <= cols
    ensures |r| == cols
  {
    if dy <= y < dy + h then CopyCols(g[y], g[sy + y - dy], sx, dx, w) else g[y]
  }

  /** The rectangle clear of a frame buffer driver.  Rows past the end of the frame
      buffer are not on the glass, so writing them changes nothing that is shown. */
  function ClearRect(g: seq<Row>, cols: nat, y0: nat, x0: nat, h: nat, w: nat, erase: Cell): (r: seq<Row>)
    requires IsGrid(g, cols) && x0 + w <= cols
    ensures |r| == |g| && IsGrid(r, cols)
  {
    seq(|g|, y requires 0 <= y < |g| => ClearedTo(g, cols, y0, x0, h, w, erase, y))
  }

  /** Row `y` after that clear. */
  function ClearedTo(g: seq<Row>, cols: nat, y0: nat, x0: nat, h: nat, w: nat, erase: Cell, y: nat): (r: Row)
    requires IsGrid(g, cols) && y < |g| && x0 + w <= cols
    ensures |r| == cols
  {
    if y0 <= y < y0 + h then CopyCols(g[y], BlankRow(cols, erase), x0, x0, w) else g[y]
  }

  /** `after` is `before` with one rectangle copied, cell by cell. */
  ghost predicate Copied(before: seq<Row>, after: seq<Row>, cols: nat,
                         sy: nat, sx: nat, dy: nat, dx: nat, h: nat, w: nat)
    requires sy + h <= |before| && dy + h <= |before| && sx + w <= cols && dx + w <= cols
  {
    && IsGrid(before, cols) && IsGrid(after, cols) && |after| == |before|
    && forall y, x {:trigger after[y][x]} :: 0 <= y < |after| && 0 <= x < cols ==>
         after[y][x] == if dy <= y < dy + h && dx <= x < dx + w then before[sy + y - dy][sx + x - dx] else before[y][x]
  }

  /** `after` is `before` with one rectangle cleared, cell by cell. */
  ghost predicate Cleared(before: seq<Row>, after: seq<Row>, cols: nat,
                          y0: nat, x0: nat, h: nat, w: nat, erase: Cell)
    requires x0 + w <= cols
  {
    && IsGrid(before, cols) && IsGrid(after, cols) && |after| == |before|
    && forall y, x :: 0 <= y < |after| && 0 <= x < cols ==>
         after[y][x] == if y0 <= y < y0 + h && x0 <= x < x0 + w then erase else before[y][x]
  }

  lemma CopiedCell(d: Row, s: Row, sx: nat, dx: nat, w: nat, x: nat)
    requires dx + w <= |d| && sx + w <= |s| && x < |d|
    ensures CopyCols(d, s, sx, dx, w)[x] == if dx <= x < dx + w then s[sx + x - dx] else d[x]
  {
  }

  /** The driver's copy is the copy cell by cell, and nothing else is. */
  lemma CopiedIsRect(before: seq<Row>, after: seq<Row>, cols: nat,
                     sy: nat, sx: nat, dy: nat, dx: nat, h: nat, w: nat)
    requires IsGrid(before, cols)
    requires sy + h <= |before| && dy + h <= |before| && sx + w <= cols && dx + w <= cols
    ensures Copied(before, after, cols, sy, sx, dy, dx, h, w) <==> after == CopyRect(before, cols, sy, sx, dy, dx, h, w)
  {
    hide CopyCols, CopyRect;
    var want := CopyRect(before, cols, sy, sx, dy, dx, h, w);
    forall y: nat, x: nat {:trigger want[y][x]} | y < |before| && x < cols
      ensures want[y][x] ==
              if dy <= y < dy + h && dx <= x < dx + w then before[sy + y - dy][sx + x - dx] else before[y][x]
    {
      var from := if dy <= y < dy + h then sy + y - dy else y;
      CopiedRow(before, cols, sy, sx, dy, dx, h, w, y, from);
      CopiedCell(before[y], before[from], sx, dx, w, x);
    }
    SameCells(want, after, cols);
  }

  lemma ClearedIsRect(before: seq<Row>, after: seq<Row>, cols: nat, y0: nat, x0: nat, h: nat, w: nat, erase: Cell)
    requires IsGrid(before, cols) && x0 + w <= cols
    ensures Cleared(before, after, cols, y0, x0, h, w, erase) <==> after == ClearRect(before, cols, y0, x0, h, w, erase)
  {
    hide CopyCols, ClearRect;
    var want := ClearRect(before, cols, y0, x0, h, w, erase);
    forall y: nat, x: nat | y < |before| && x < cols
      ensures want[y][x] == if y0 <= y < y0 + h && x0 <= x < x0 + w then erase else before[y][x]
    {
      ClearedRow(before, cols, y0, x0, h, w, erase, y);
      CopiedCell(before[y], BlankRow(cols, erase), x0, x0, w, x);
    }
    SameCells(want, after, cols);
  }

  lemma SameCells(a: seq<Row>, b: seq<Row>, cols: nat)
    requires IsGrid(a, cols)
    ensures a == b <==>
            && |a| == |b| && IsGrid(b, cols)
            && forall y, x :: 0 <= y < |a| && 0 <= x < cols ==> b[y][x] == a[y][x]
  {
    if |a| == |b| && IsGrid(b, cols) && forall y, x :: 0 <= y < |a| && 0 <= x < cols ==> b[y][x] == a[y][x] {
      assert forall y :: 0 <= y < |a| ==> b[y] == a[y];
    }
  }

  lemma WholeRow(d: Row, s: Row)
    requires |d| == |s|
    ensures CopyCols(d, s, 0, 0, |d|) == s
  {
  }

  /** A copy of whole rows moves the rows themselves. */
  lemma FullCopy(g: seq<Row>, cols: nat, sy: nat, dy: nat, h: nat)
    requires IsGrid(g, cols) && sy + h <= |g| && dy + h <= |g|
    ensures forall y :: 0 <= y < |g| ==>
              CopyRect(g, cols, sy, 0, dy, 0, h, cols)[y] == (if dy <= y < dy + h then g[sy + y - dy] else g[y])
  {
    hide CopyCols, CopyRect;
    forall y: nat | y < |g|
      ensures CopyRect(g, cols, sy, 0, dy, 0, h, cols)[y] == if dy <= y < dy + h then g[sy + y - dy] else g[y]
    {
      var from := if dy <= y < dy + h then sy + y - dy else y;
      CopiedRow(g, cols, sy, 0, dy, 0, h, cols, y, from);
      WholeRow(g[y], g[from]);
    }
  }

  lemma FullClear(g: seq<Row>, cols: nat, y0: nat, h: nat, erase: Cell)
    requires IsGrid(g, cols)
    ensures forall y :: 0 <= y < |g| ==>
              ClearRect(g, cols, y0, 0, h, cols, erase)[y] ==
              (if y0 <= y < y0 + h then BlankRow(cols, erase) else g[y])
  {
    hide CopyCols, ClearRect, BlankRow;
    forall y: nat | y < |g|
      ensures ClearRect(g, cols, y0, 0, h, cols, erase)[y] == if y0 <= y < y0 + h then BlankRow(cols, erase) else g[y]
    {
      ClearedRow(g, cols, y0, 0, h, cols, erase, y);
      WholeRow(g[y], BlankRow(cols, erase));
    }
  }

  lemma CopiedRow(g: seq<Row>, cols: nat, sy: nat, sx: nat, dy: nat, dx: nat, h: nat, w: nat, y: nat, from: nat)
    requires IsGrid(g, cols) && y < |g| && from == (if dy <= y < dy + h then sy + y - dy else y)
    requires sy + h <= |g| && dy + h <= |g| && sx + w <= cols && dx + w <= cols
    ensures from < |g|
    ensures CopyRect(g, cols, sy, sx, dy, dx, h, w)[y] ==
            if dy <= y < dy + h then CopyCols(g[y], g[from], sx, dx, w) else g[y]
  {
    hide CopyCols;
  }

  lemma ClearedRow(g: seq<Row>, cols: nat, y0: nat, x0: nat, h: nat, w: nat, erase: Cell, y: nat)
    requires IsGrid(g, cols) && y < |g| && x0 + w <= cols
    ensures ClearRect(g, cols, y0, x0, h, w, erase)[y] ==
            if y0 <= y < y0 + h then CopyCols(g[y], BlankRow(cols, erase), x0, x0, w) else g[y]
  {
    hide CopyCols, BlankRow;
  }

  /** What copying and clearing whole rows leaves. */
  lemma RowsCopied(before: seq<Row>, after: seq<Row>, cols: nat, sy: nat, dy: nat, h: nat)
    requires sy + h <= |before| && dy + h <= |before| && Copied(before, after, cols, sy, 0, dy, 0, h, cols)
    ensures |after| == |before|
    ensures forall y :: 0 <= y < |after| ==> after[y] == before[if dy <= y < dy + h then sy + y - dy else y]
  {
    hide CopyRect;
    CopiedIsRect(before, after, cols, sy, 0, dy, 0, h, cols);
    FullCopy(before, cols, sy, dy, h);
  }

  lemma RowsCleared(before: seq<Row>, after: seq<Row>, cols: nat, y0: nat, h: nat, erase: Cell)
    requires Cleared(before, after, cols, y0, 0, h, cols, erase)
    ensures |after| == |before|
    ensures forall y :: 0 <= y < |after| ==>
              after[y] == if y0 <= y < y0 + h then BlankRow(cols, erase) else before[y]
  {
    hide ClearRect;
    ClearedIsRect(before, after, cols, y0, 0, h, cols, erase);
    FullClear(before, cols, y0, h, erase);
  }

  // ----- splitting an overlapping copy ---------------------------------------

  /** Copying upwards, the first `b` rows may be copied before the rest. */
  lemma CopyUpSplit(g: seq<Row>, cols: nat, sy: nat, sx: nat, dy: nat, dx: nat, h: nat, w: nat, b: nat)
    requires IsGrid(g, cols) && b <= h && dy < sy
    requires sy + h <= |g| && dy + h <= |g| && sx + w <= cols && dx + w <= cols
    ensures CopyRect(CopyRect(g, cols, sy, sx, dy, dx, b, w), cols, sy + b, sx, dy + b, dx, h - b, w)
         == CopyRect(g, cols, sy, sx, dy, dx, h, w)
  {
    hide CopyCols, CopyRect;
    var first := CopyRect(g, cols, sy, sx, dy, dx, b, w);
    var both := CopyRect(first, cols, sy + b, sx, dy + b, dx, h - b, w);
    var whole := CopyRect(g, cols, sy, sx, dy, dx, h, w);
    forall y: nat | y < |g| ensures both[y] == whole[y] {
      var from := if dy <= y < dy + h then sy + y - dy else y;
      CopiedRow(g, cols, sy, sx, dy, dx, h, w, y, from);
      CopiedRow(first, cols, sy + b, sx, dy + b, dx, h - b, w, y, if y < dy + b then y else from);
      CopiedRow(g, cols, sy, sx, dy, dx, b, w, y, if y < dy + b then from else y);
      if dy + b <= y < dy + h {
        CopiedRow(g, cols, sy, sx, dy, dx, b, w, from, from);
      }
    }
  }

  /** Copying downwards or sideways, the rows from `b` on may be copied before the first `b`. */
  lemma CopyDownSplit(g: seq<Row>, cols: nat, sy: nat, sx: nat, dy: nat, dx: nat, h: nat, w: nat, b: nat)
    requires IsGrid(g, cols) && b <= h && sy <= dy
    requires sy + h <= |g| && dy + h <= |g| && sx + w <= cols && dx + w <= cols
    ensures CopyRect(CopyRect(g, cols, sy + b, sx, dy + b, dx, h - b, w), cols, sy, sx, dy, dx, b, w)
         == CopyRect(g, cols, sy, sx, dy, dx, h, w)
  {
    hide CopyCols, CopyRect;
    var first := CopyRect(g, cols, sy + b, sx, dy + b, dx, h - b, w);
    var both := CopyRect(first, cols, sy, sx, dy, dx, b, w);
    var whole := CopyRect(g, cols, sy, sx, dy, dx, h, w);
    forall y: nat | y < |g| ensures both[y] == whole[y] {
      var from := if dy <= y < dy + h then sy + y - dy else y;
      CopiedRow(g, cols, sy, sx, dy, dx, h, w, y, from);
      CopiedRow(first, cols, sy, sx, dy, dx, b, w, y, if y < dy + b then from else y);
      CopiedRow(g, cols, sy + b, sx, dy + b, dx, h - b, w, y, if y < dy + b then y else from);
      if dy <= y < dy + b {
        CopiedRow(g, cols, sy + b, sx, dy + b, dx, h - b, w, from, from);
      }
    }
  }

  /** The two halves of a cut copy. */
  lemma CopiedUp(l: seq<Row>, half: seq<Row>, both: seq<Row>, cols: nat,
                 sy: nat, sx: nat, dy: nat, dx: nat, h: nat, w: nat, b: nat)
    requires IsGrid(l, cols) && b <= h && dy < sy && |half| == |l|
    requires sy + h <= |l| && dy + h <= |l| && sx + w <= cols && dx + w <= cols
    requires Copied(l, half, cols, sy, sx, dy, dx, b, w)
    requires Copied(half, both, cols, sy + b, sx, dy + b, dx, h - b, w)
    ensures Copied(l, both, cols, sy, sx, dy, dx, h, w)
  {
    hide Copied, CopyRect;
    CopyUpSplit(l, cols, sy, sx, dy, dx, h, w, b);
    CopiedIsRect(l, half, cols, sy, sx, dy, dx, b, w);
    CopiedIsRect(half, both, cols, sy + b, sx, dy + b, dx, h - b, w);
    CopiedIsRect(l, both, cols, sy, sx, dy, dx, h, w);
  }

  lemma CopiedDown(l: seq<Row>, half: seq<Row>, both: seq<Row>, cols: nat,
                   sy: nat, sx: nat, dy: nat, dx: nat, h: nat, w: nat, b: nat)
    requires IsGrid(l, cols) && b <= h && sy <= dy && |half| == |l|
    requires sy + h <= |l| && dy + h <= |l| && sx + w <= cols && dx + w <= cols
    requires Copied(l, half, cols, sy + b, sx, dy + b, dx, h - b, w)
    requires Copied(half, both, cols, sy, sx, dy, dx, b, w)
    ensures Copied(l, both, cols, sy, sx, dy, dx, h, w)
  {
    hide Copied, CopyRect;
    CopyDownSplit(l, cols, sy, sx, dy, dx, h, w, b);
    CopiedIsRect(l, half, cols, sy + b, sx, dy + b, dx, h - b, w);
    CopiedIsRect(half, both, cols, sy, sx, dy, dx, b, w);
    CopiedIsRect(l, both, cols, sy, sx, dy, dx, h, w);
  }

  lemma ClearedBoth(l: seq<Row>, half: seq<Row>, both: seq<Row>, cols: nat,
                    y: nat, x: nat, h: nat, w: nat, b: nat, erase: Cell)
    requires IsGrid(l, cols) && b <= h && x + w <= cols
    requires Cleared(l, half, cols, y, x, b, w, erase) && Cleared(half, both, cols, y + b, x, h - b, w, erase)
    ensures Cleared(l, both, cols, y, x, h, w, erase)
  {
    hide Cleared, ClearRect;
    ClearSplit(l, cols, y, x, h, w, b, erase);
    ClearedIsRect(l, half, cols, y, x, b, w, erase);
    ClearedIsRect(half, both, cols, y + b, x, h - b, w, erase);
    ClearedIsRect(l, both, cols, y, x, h, w, erase);
  }

  lemma NothingCleared(g: seq<Row>, cols: nat, y: nat, x: nat, h: nat, w: nat, erase: Cell)
    requires IsGrid(g, cols) && (h == 0 || w == 0) && x + w <= cols
    ensures Cleared(g, g, cols, y, x, h, w, erase)
  {
  }

  lemma ClearSplit(g: seq<Row>, cols: nat, y: nat, x: nat, h: nat, w: nat, b: nat, erase: Cell)
    requires IsGrid(g, cols) && b <= h && x + w <= cols
    ensures ClearRect(ClearRect(g, cols, y, x, b, w, erase), cols, y + b, x, h - b, w, erase)
         == ClearRect(g, cols, y, x, h, w, erase)
  {
  }

  // ----- the cyclic row order ------------------------------------------------

  /** Physical row of logical row `y` when the screen starts at physical row `yscroll`. */
  function RealY(vrows: nat, yscroll: nat, y: nat): (r: nat)
    requires yscroll < vrows && y < vrows
    ensures r < vrows
  {
    var ypos := y + yscroll;
    if ypos < vrows then ypos else ypos - vrows
  }

  /** The physical rows follow the logical ones cyclically. */
  lemma RealYIsCyclic(vrows: nat, yscroll: nat, y: nat)
    requires yscroll < vrows && y < vrows
    ensures RealY(vrows, yscroll, y) == (y + yscroll) % vrows
  {
    DivUnique(y + yscroll, vrows, if y + yscroll < vrows then 0 else 1);
  }

  /** The rows of a frame buffer in logical order. */
  function Rotated(g: seq<Row>, yscroll: nat): (r: seq<Row>)
    requires yscroll < |g|
    ensures |r| == |g|
  {
    g[yscroll..] + g[..yscroll]
  }

  lemma Unrotated(g: seq<Row>)
    requires 0 < |g|
    ensures Rotated(g, 0) == g
  {
  }

  lemma RotatedRow(g: seq<Row>, yscroll: nat, y: nat)
    requires yscroll < |g| && y < |g|
    ensures Rotated(g, yscroll)[y] == g[RealY(|g|, yscroll, y)]
  {
  }

  lemma RotatedIsGrid(g: seq<Row>, cols: nat, yscroll: nat)
    requires yscroll < |g| && IsGrid(g, cols)
    ensures IsGrid(Rotated(g, yscroll), cols)
  {
  }

  /** No row of the logical block [y, y + h) is on the far side of the wrap from another. */
  predicate Unsplit(vrows: nat, yscroll: nat, y: nat, h: nat) {
    y + h <= vrows - yscroll || vrows - yscroll <= y
  }

  /** Inside an unsplit block, physical rows follow each other as logical rows do. */
  lemma UnsplitRows(vrows: nat, yscroll: nat, y: nat, h: nat)
    requires yscroll < vrows && 0 < h && y + h <= vrows && Unsplit(vrows, yscroll, y, h)
    ensures RealY(vrows, yscroll, y) + h <= vrows
    ensures forall k :: y <= k < y + h ==> RealY(vrows, yscroll, k) == RealY(vrows, yscroll, y) + k - y
    ensures forall k :: 0 <= k < vrows && !(y <= k < y + h) ==>
              !(RealY(vrows, yscroll, y) <= RealY(vrows, yscroll, k) < RealY(vrows, yscroll, y) + h)
  {
  }

  /** A physical copy between two blocks that do not straddle the wrap is the same
      copy in logical coordinates. */
  lemma CopyRotated(g: seq<Row>, cols: nat, yscroll: nat, sy: nat, sx: nat, dy: nat, dx: nat, h: nat, w: nat)
    requires yscroll < |g| && IsGrid(g, cols) && IsGrid(Rotated(g, yscroll), cols)
    requires 0 < h && sy + h <= |g| && dy + h <= |g| && sx + w <= cols && dx + w <= cols
    requires Unsplit(|g|, yscroll, sy, h) && Unsplit(|g|, yscroll, dy, h)
    ensures RealY(|g|, yscroll, sy) + h <= |g| && RealY(|g|, yscroll, dy) + h <= |g|
    ensures Rotated(CopyRect(g, cols, RealY(|g|, yscroll, sy), sx, RealY(|g|, yscroll, dy), dx, h, w), yscroll)
         == CopyRect(Rotated(g, yscroll), cols, sy, sx, dy, dx, h, w)
  {
    hide CopyCols, CopyRect, Rotated, RealY;
    UnsplitRows(|g|, yscroll, sy, h);
    UnsplitRows(|g|, yscroll, dy, h);
    var rsy, rdy, l := RealY(|g|, yscroll, sy), RealY(|g|, yscroll, dy), Rotated(g, yscroll);
    var moved := CopyRect(g, cols, rsy, sx, rdy, dx, h, w);
    var want := CopyRect(l, cols, sy, sx, dy, dx, h, w);
    forall y: nat | y < |g| ensures Rotated(moved, yscroll)[y] == want[y] {
      var from := if dy <= y < dy + h then sy + y - dy else y;
      CopiedRow(l, cols, sy, sx, dy, dx, h, w, y, from);
      RotatedRow(moved, yscroll, y);
      RotatedRow(g, yscroll, y);
      RotatedRow(g, yscroll, from);
      CopiedRow(g, cols, rsy, sx, rdy, dx, h, w, RealY(|g|, yscroll, y), RealY(|g|, yscroll, from));
    }
  }

  lemma ClearRotated(g: seq<Row>, cols: nat, yscroll: nat, y: nat, x: nat, h: nat, w: nat, erase: Cell)
    requires yscroll < |g| && IsGrid(g, cols) && IsGrid(Rotated(g, yscroll), cols)
    requires 0 < h && y + h <= |g| && x + w <= cols && Unsplit(|g|, yscroll, y, h)
    ensures Rotated(ClearRect(g, cols, RealY(|g|, yscroll, y), x, h, w, erase), yscroll)
         == ClearRect(Rotated(g, yscroll), cols, y, x, h, w, erase)
  {
    UnsplitRows(|g|, yscroll, y, h);
    var cleared := ClearRect(g, cols, RealY(|g|, yscroll, y), x, h, w, erase);
    var want := ClearRect(Rotated(g, yscroll), cols, y, x, h, w, erase);
    forall k | 0 <= k < |g| ensures Rotated(cleared, yscroll)[k] == want[k] {
      RotatedRow(cleared, yscroll, k);
      RotatedRow(g, yscroll, k);
    }
  }

  /** A physical clear whose rows run past the end of the frame buffer reaches only the part of
      the logical block that lies before the wrap. */
  lemma ClearReaches(g: seq<Row>, cols: nat, yscroll: nat, y: nat, h: nat, erase: Cell, reach: int)
    requires yscroll < |g| && IsGrid(g, cols) && 0 < h && y + h <= |g|
    requires reach == if Unsplit(|g|, yscroll, y, h) then y + h else |g| - yscroll
    ensures forall k :: 0 <= k < |g| ==>
              Rotated(ClearRect(g, cols, RealY(|g|, yscroll, y), 0, h, cols, erase), yscroll)[k] ==
              (if y <= k < reach then BlankRow(cols, erase) else Rotated(g, yscroll)[k])
  {
    var ry := RealY(|g|, yscroll, y);
    var cleared := ClearRect(g, cols, ry, 0, h, cols, erase);
    FullClear(g, cols, ry, h, erase);
    forall k | 0 <= k < |g|
      ensures Rotated(cleared, yscroll)[k] == if y <= k < reach then BlankRow(cols, erase) else Rotated(g, yscroll)[k]
    {
      RotatedRow(cleared, yscroll, k);
      RotatedRow(g, yscroll, k);
    }
  }

  // ----- the reference scroll ------------------------------------------------

  /** What a list of rows shows after rows [t, b) move up by `count`. */
  function ScrolledUp(v: seq<Row>, t: nat, b: nat, count: nat, blank: Row): (r: seq<Row>)
    requires t + count <= b <= |v|
    ensures |r| == |v|
  {
    v[..t] + v[t + count..b] + seq(count, _ => blank) + v[b..]
  }

  /** What a list of rows shows after rows [t, b) move down by `count`. */
  function ScrolledDown(v: seq<Row>, t: nat, b: nat, count: nat, blank: Row): (r: seq<Row>)
    requires t + count <= b <= |v|
    ensures |r| == |v|
  {
    v[..t] + seq(count, _ => blank) + v[t..b - count] + v[b..]
  }

  lemma ScrolledUpRow(v: seq<Row>, t: nat, b: nat, count: nat, blank: Row, i: nat)
    requires t + count <= b <= |v| && i < |v|
    ensures ScrolledUp(v, t, b, count, blank)[i] ==
            if t <= i < b - count then v[i + count] else if b - count <= i < b then blank else v[i]
  {
  }

  lemma ScrolledDownRow(v: seq<Row>, t: nat, b: nat, count: nat, blank: Row, i: nat)
    requires t + count <= b <= |v| && i < |v|
    ensures ScrolledDown(v, t, b, count, blank)[i] ==
            if t <= i < t + count then blank else if t + count <= i < b then v[i - count] else v[i]
  {
  }
}
