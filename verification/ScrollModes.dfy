/** The row bookkeeping of hardware scrolling.  When the start of the visible screen
    moves inside the frame buffer, the rows outside the scrolled region have to be
    copied the other way so that they seem to stay where they are. */
module ScrollModes {
  import opened Grid

  /** The first `rows` rows of `after` show what `before` showed `count` rows further down. */
  ghost predicate Advanced(before: seq<Row>, after: seq<Row>, rows: nat, count: nat)
    requires count <= rows <= |before| && rows <= |after|
  {
    forall i :: 0 <= i < rows - count ==> after[i] == before[i + count]
  }

  /** The first `rows` rows of `after` show what `before` showed `count` rows further up. */
  ghost predicate Retreated(before: seq<Row>, after: seq<Row>, rows: nat, count: nat)
    requires count <= rows <= |before| && rows <= |after|
  {
    forall i :: count <= i < rows ==> after[i] == before[i - count]
  }

  /** Moving the screen start down by `count` rows scrolls the region up, provided the rows
      above it are first copied down, the rows below it are afterwards copied down, and the
      freed rows are cleared: r0 to r4 are the rows before and after each of these steps. */
  lemma StartMovedUp(r0: seq<Row>, r1: seq<Row>, r2: seq<Row>, r3: seq<Row>, r4: seq<Row>,
                     cols: nat, rows: nat, t: nat, b: nat, count: nat, erase: Cell)
    requires |r0| == |r1| == |r2| == |r3| && 0 < count && t + count < b <= rows <= |r0|
    requires if 0 < t then Copied(r0, r1, cols, 0, 0, count, 0, t, cols) else r1 == r0
    requires Advanced(r1, r2, rows, count)
    requires if b < rows then Copied(r2, r3, cols, b - count, 0, b, 0, rows - b, cols) else r3 == r2
    requires Cleared(r3, r4, cols, b - count, 0, count, cols, erase)
    ensures |r4| == |r0| && r4[..rows] == ScrolledUp(r0[..rows], t, b, count, BlankRow(cols, erase))
  {
    hide Copied, Cleared;
    if 0 < t {
      RowsCopied(r0, r1, cols, 0, count, t);
    }
    if b < rows {
      RowsCopied(r2, r3, cols, b - count, b, rows - b);
    }
    RowsCleared(r3, r4, cols, b - count, count, erase);
    var want := ScrolledUp(r0[..rows], t, b, count, BlankRow(cols, erase));
    forall i | 0 <= i < rows ensures r4[i] == want[i] {
      ScrolledUpRow(r0[..rows], t, b, count, BlankRow(cols, erase), i);
    }
  }

  lemma StartMovedDown(r0: seq<Row>, r1: seq<Row>, r2: seq<Row>, r3: seq<Row>, r4: seq<Row>,
                       cols: nat, rows: nat, t: nat, b: nat, count: nat, erase: Cell)
    requires |r0| == |r1| == |r2| == |r3| && 0 < count && t + count < b <= rows <= |r0|
    requires if b < rows then Copied(r0, r1, cols, b, 0, b - count, 0, rows - b, cols) else r1 == r0
    requires Retreated(r1, r2, rows, count)
    requires if 0 < t then Copied(r2, r3, cols, count, 0, 0, 0, t, cols) else r3 == r2
    requires Cleared(r3, r4, cols, t, 0, count, cols, erase)
    ensures |r4| == |r0| && r4[..rows] == ScrolledDown(r0[..rows], t, b, count, BlankRow(cols, erase))
  {
    hide Copied, Cleared;
    if b < rows {
      RowsCopied(r0, r1, cols, b, b - count, rows - b);
    }
    if 0 < t {
      RowsCopied(r2, r3, cols, count, 0, t);
    }
    RowsCleared(r3, r4, cols, t, count, erase);
    var want := ScrolledDown(r0[..rows], t, b, count, BlankRow(cols, erase));
    forall i | 0 <= i < rows ensures r4[i] == want[i] {
      ScrolledDownRow(r0[..rows], t, b, count, BlankRow(cols, erase), i);
    }
  }

  /** Moving the region itself and clearing the freed rows is the same scroll. */
  lemma RegionMovedUp(r: seq<Row>, moved: seq<Row>, cleared: seq<Row>, cols: nat, rows: nat,
                      t: nat, b: nat, count: nat, u: nat, height: nat, erase: Cell)
    requires 0 < count && t + count < b <= rows <= |r| && u == t + count && height == b - u
    requires Copied(r, moved, cols, u, 0, t, 0, height, cols)
    requires Cleared(moved, cleared, cols, b - count, 0, count, cols, erase)
    ensures |cleared| == |r| && cleared[..rows] == ScrolledUp(r[..rows], t, b, count, BlankRow(cols, erase))
  {
    hide Copied, Cleared;
    RowsCopied(r, moved, cols, u, t, height);
    RowsCleared(moved, cleared, cols, b - count, count, erase);
    var want := ScrolledUp(r[..rows], t, b, count, BlankRow(cols, erase));
    forall i | 0 <= i < rows ensures cleared[i] == want[i] {
      ScrolledUpRow(r[..rows], t, b, count, BlankRow(cols, erase), i);
    }
  }

  lemma RegionMovedDown(r: seq<Row>, moved: seq<Row>, cleared: seq<Row>, cols: nat, rows: nat,
                        t: nat, b: nat, count: nat, u: nat, height: nat, erase: Cell)
    requires 0 < count && t + count < b <= rows <= |r| && u == t + count && height == b - u
    requires Copied(r, moved, cols, t, 0, u, 0, height, cols)
    requires Cleared(moved, cleared, cols, t, 0, count, cols, erase)
    ensures |cleared| == |r| && cleared[..rows] == ScrolledDown(r[..rows], t, b, count, BlankRow(cols, erase))
  {
    hide Copied, Cleared;
    RowsCopied(r, moved, cols, t, u, height);
    RowsCleared(moved, cleared, cols, t, count, erase);
    var want := ScrolledDown(r[..rows], t, b, count, BlankRow(cols, erase));
    forall i | 0 <= i < rows ensures cleared[i] == want[i] {
      ScrolledDownRow(r[..rows], t, b, count, BlankRow(cols, erase), i);
    }
  }

  /** Moving the start of a wrapped screen forward or back rotates its rows. */
  lemma WrapStart(g: seq<Row>, rows: nat, from: nat, to: nat, count: nat)
    requires from < |g| && to < |g| && count <= rows <= |g| && count < |g|
    ensures to == RealY(|g|, from, count) ==> Advanced(Rotated(g, from), Rotated(g, to), rows, count)
    ensures from == RealY(|g|, to, count) ==> Retreated(Rotated(g, from), Rotated(g, to), rows, count)
  {
    hide Rotated, RealY;
    forall i: nat | i < rows - count ensures RealY(|g|, from, i + count) == RealY(|g|, RealY(|g|, from, count), i)
                                             && RealY(|g|, to, i + count) == RealY(|g|, RealY(|g|, to, count), i)
    {
      RealYAgain(|g|, from, count, i);
      RealYAgain(|g|, to, count, i);
    }
    forall i: nat | i < |g| ensures Rotated(g, from)[i] == g[RealY(|g|, from, i)]
                                    && Rotated(g, to)[i] == g[RealY(|g|, to, i)]
    {
      RotatedRow(g, from, i);
      RotatedRow(g, to, i);
    }
  }

  lemma RealYAgain(vrows: nat, y: nat, a: nat, b: nat)
    requires y < vrows && a + b < vrows
    ensures RealY(vrows, y, a + b) == RealY(vrows, RealY(vrows, y, a), b)
  {
  }

  /** In pan mode, a start that would leave the frame buffer at its end goes back by the
      whole slack after one copy of the visible screen; each row still shows what the row
      `count` below it showed. */
  lemma PanUpJump(g: seq<Row>, g': seq<Row>, cols: nat, rows: nat, y: nat, y': int, count: nat)
    requires IsGrid(g, cols) && 0 < count < rows <= |g|
    requires y <= |g| - rows < y + count <= 2 * (|g| - rows) && y' == y + count - (|g| - rows)
    requires Copied(g, g', cols, |g| - rows, 0, 0, 0, rows, cols)
    ensures Advanced(Rotated(g, y), Rotated(g', y'), rows, count)
  {
    var d := |g| - rows;
    hide Copied, Rotated;
    RowsCopied(g, g', cols, d, 0, rows);
    forall i: nat | i < rows - count ensures Rotated(g', y')[i] == Rotated(g, y)[i + count] {
      RotatedRow(g', y', i);
      RotatedRow(g, y, i + count);
      assert g'[y' + i] == g[d + y' + i];
    }
  }

  lemma PanDownJump(g: seq<Row>, g': seq<Row>, cols: nat, rows: nat, y: nat, y': int, count: nat)
    requires IsGrid(g, cols) && 0 < count < rows <= |g|
    requires y < count <= y + |g| - rows && y <= |g| - rows && y' == y - count + |g| - rows
    requires Copied(g, g', cols, 0, 0, |g| - rows, 0, rows, cols)
    ensures Retreated(Rotated(g, y), Rotated(g', y'), rows, count)
  {
    var d := |g| - rows;
    hide Copied, Rotated;
    RowsCopied(g, g', cols, 0, d, rows);
    forall i: nat | count <= i < rows ensures Rotated(g', y')[i] == Rotated(g, y)[i - count] {
      RotatedRow(g', y', i);
      RotatedRow(g, y, i - count);
      assert g'[y' + i] == g[y' + i - d];
    }
  }

  lemma PanStart(g: seq<Row>, rows: nat, from: nat, to: nat, count: nat)
    requires 0 < rows <= |g| && from <= |g| - rows && to <= |g| - rows && count <= rows
    ensures to == from + count ==> Advanced(Rotated(g, from), Rotated(g, to), rows, count)
    ensures from == to + count ==> Retreated(Rotated(g, from), Rotated(g, to), rows, count)
  {
  }
}
