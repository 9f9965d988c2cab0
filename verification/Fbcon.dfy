/** The frame buffer console: a visible screen of `rows` rows inside a frame buffer of
    `vrows` physical rows, the console's screen buffer, and the soft scrollback ring. */
module Fbcon {
  import opened Grid
  import opened ScrollModes
  import opened SoftbackRing
  import opened ConsoleView

  /** The scrolling strategies of `scrollmode & __SCROLL_YMASK`. */
  datatype ScrollMode = YMove | YWrap | YPan | YRedraw

  /** Where the screen starts after its start moved by `count` rows: round the frame buffer in wrap
      mode, and back or forth by the slack when it would leave the frame buffer in pan mode. */
  function StartAfter(mode: ScrollMode, dir: Dir, y: int, count: nat, vrows: nat, rows: nat): int {
    match (mode, dir)
    case (YWrap, Up) => if y + count < vrows then y + count else y + count - vrows
    case (YWrap, Down) => if 0 <= y - count then y - count else y - count + vrows
    case (YPan, Up) => if y + count <= vrows - rows then y + count else y + count - (vrows - rows)
    case (YPan, Down) => if 0 <= y - count then y - count else y - count + (vrows - rows)
    case _ => y
  }

  class Console {
    const rows: nat
    const cols: nat
    const vrows: nat
    const mode: ScrollMode
    const panRedraw: bool       // __SCROLL_YPANREDRAW
    const scrollPartial: bool   // !__SCROLL_YNOPARTIAL
    const canSoftBlank: bool
    const logoLines: nat

    var glass: seq<Row>         // the physical rows of the frame buffer
    var yscroll: int
    var erase: Cell             // vc_video_erase_char
    var consoleBlanked: bool
    var logoShown: bool

    const mem: array<Row>       // kernel memory, one row of vc_size_row bytes a unit
    const origin: nat           // vc_origin
    const buf: nat              // softback_buf
    const end: nat              // softback_end
    const softback: bool        // softback_top != 0
    var top: nat                // softback_top
    var sin: nat                // softback_in
    var curr: nat               // softback_curr
    var lines: int              // softback_lines

    /** A console that shows `screen`, with an empty ring of `ringRows` rows behind it. */
    constructor (mode: ScrollMode, rows: nat, cols: nat, vrows: nat, ringRows: nat, logoLines: nat,
                 panRedraw: bool, scrollPartial: bool, canSoftBlank: bool, erase: Cell, screen: seq<Row>)
      requires 0 < cols && logoLines <= rows && 0 < rows <= vrows && 5 < ringRows
      requires |screen| == rows && IsGrid(screen, cols)
      ensures Wf() && ScrollOk() && RingOk() && Shown() && fresh(mem)
      ensures Kept() == [] && Screen() == screen && lines == 0 && !consoleBlanked && !logoShown && softback
      ensures this.mode == mode && this.rows == rows && this.cols == cols && this.vrows == vrows
      ensures yscroll == 0 && this.logoLines == logoLines && this.erase == erase && end - buf == ringRows
      ensures this.panRedraw == panRedraw && this.scrollPartial == scrollPartial && this.canSoftBlank == canSoftBlank
    {
      this.mode, this.rows, this.cols, this.vrows, yscroll := mode, rows, cols, vrows, 0;
      this.panRedraw, this.scrollPartial, this.canSoftBlank := panRedraw, scrollPartial, canSoftBlank;
      this.logoLines, this.erase, consoleBlanked, logoShown := logoLines, erase, false, false;
      origin, buf, end, softback := 0, rows, rows + ringRows, true;
      top, sin, curr, lines := rows, rows, rows, 0;
      var blank := BlankRow(cols, erase);
      glass := screen + seq(vrows - rows, _ => blank);
      mem := new Row[rows + ringRows](i requires 0 <= i => if i < rows then screen[i] else blank);
      new;
      Unrotated(glass);
      assert Screen() == screen;
      WindowAtEnd(Kept(), Screen());
    }

    // ----- what is always true ------------------------------------------------

    ghost predicate Wf()
      reads this`glass, this`yscroll, this`top, this`sin, this`curr, mem
    {
      && 0 < cols && logoLines <= rows && 0 < rows <= vrows
      && |glass| == vrows && IsGrid(glass, cols)
      && 0 <= yscroll < vrows
      && (forall r :: 0 <= r < mem.Length ==> |mem[r]| == cols)
      && buf + 5 < end <= mem.Length && origin + rows <= mem.Length && Apart(origin, rows, buf, end)
      && buf <= top < end && buf <= sin < end && buf <= curr < end
    }

    /** Where each strategy keeps the start of the screen. */
    ghost predicate ScrollOk()
      reads this`yscroll
    {
      match mode
      case YWrap => 0 <= yscroll < vrows
      case YPan => 0 <= yscroll <= vrows - rows
      case _ => yscroll == 0
    }

    /** `lines` counts the ring rows from `curr` to `sin`, and `curr` is on the arc from `top` to
        `sin`.  The view is at the screen when there is no ring and while the boot logo is up. */
    ghost predicate RingOk()
      reads this`top, this`sin, this`curr, this`lines, this`logoShown
      requires buf <= top < end && buf <= sin < end && buf <= curr < end
    {
      && lines == Dist(buf, end, curr, sin)
      && lines <= Dist(buf, end, top, sin)
      && (!softback || logoShown ==> lines == 0)
    }

    function Screen(): (s: seq<Row>)
      reads mem
      requires origin + rows <= mem.Length
      ensures |s| == rows
    {
      ScreenAt(mem[..], origin, rows)
    }

    ghost function Kept(): (h: seq<Row>)
      reads mem, this`top, this`sin
      requires buf <= top < end <= mem.Length && buf <= sin < end
    {
      History(mem[..], buf, end, top, sin)
    }

    /** The rows of the frame buffer in logical order; the first `rows` are visible. */
    ghost function Logical(): (l: seq<Row>)
      reads this`glass, this`yscroll
      requires 0 <= yscroll < vrows == |glass|
      ensures |l| == vrows
    {
      Rotated(glass, yscroll)
    }

    /** The visible screen is the window of `rows` rows that ends `lines` rows above the end of
        the history followed by the screen buffer. */
    ghost predicate Shown()
      reads this`glass, this`yscroll, this`top, this`sin, this`curr, this`lines, mem
      requires Wf()
    {
      Visible() == Window(Kept(), Screen(), lines)
    }

    // ----- rows of the glass --------------------------------------------------

    function RealRow(y: nat): (r: nat)
      reads this`yscroll
      requires 0 <= yscroll < vrows && y < vrows
      ensures r < vrows && r == RealY(vrows, yscroll, y)
    {
      RealY(vrows, yscroll, y)
    }

    /** The driver's putcs: it draws the character of each cell with the attribute of the first one. */
    method Putcs(run: Row, y: nat, x: nat)
      requires Wf() && y < vrows && 0 < |run| && x + |run| <= cols
      requires forall k :: 0 <= k < |run| ==> Attr(run[k]) == Attr(run[0])
      modifies this`glass
      ensures glass == old(glass)[y := CopyCols(old(glass)[y], run, 0, x, |run|)]
      ensures Wf()
    {
      var drawn := seq(|run|, k requires 0 <= k < |run| => (run[k] & 0x00ff) | (run[0] & 0xff00));
      forall k | 0 <= k < |run| ensures drawn[k] == run[k] {
        SameAttr(run[k], run[0]);
      }
      assert drawn == run;
      glass := glass[y := CopyCols(glass[y], drawn, 0, x, |run|)];
    }

    /** scr_writew of the next cell into memory row `d`. */
    method StoreCell(d: nat, x: nat, c: Cell, ghost src: Row, ghost dst: Row)
      requires Wf() && d < mem.Length && x < cols == |src| == |dst|
      requires mem[d] == PartlyDrawn(src, dst, x) && c == src[x]
      modifies mem
      ensures Wf() && mem[d] == PartlyDrawn(src, dst, x + 1)
      ensures forall r :: 0 <= r < mem.Length && r != d ==> mem[r] == old(mem[r])
    {
      CellStored(src, dst, x);
      mem[d] := mem[d][x := c];
    }

    /** Emit the pending cells [start, i) of memory row `s`, all different from `dst`. */
    method EmitRun(s: nat, start: nat, i: nat, y: nat, x: nat, ghost dst: Row, ghost shown: Row)
      requires Wf() && s < mem.Length && y < vrows && x == start < i <= cols == |dst| == |shown|
      requires forall k :: start <= k < i ==> Attr(mem[s][k]) == Attr(mem[s][start]) && mem[s][k] != dst[k]
      requires glass[y] == Overdrawn(mem[s], dst, shown, start)
      modifies this`glass
      ensures Wf() && glass == old(glass)[y := Overdrawn(mem[s], dst, shown, i)]
    {
      RunDrawn(mem[s], dst, shown, start, i);
      Putcs(mem[s][start..i], y, x);
    }

    /** One turn of the cell loop: a change of attribute ends the pending run, and so does a
        cell that is the same in both rows, which is then stepped over. */
    method StepCell(s: nat, c: Cell, old_c: Cell, start: nat, i: nat, y: nat, x: nat, attr: Cell,
                    ghost dst: Row, ghost shown: Row)
      returns (start': nat, x': nat, attr': Cell)
      requires Wf() && s < mem.Length && y < vrows && x == start <= i < cols == |dst| == |shown|
      requires c == mem[s][i] && old_c == dst[i]
      requires forall k :: start <= k < i ==> Attr(mem[s][k]) == attr && mem[s][k] != dst[k]
      requires glass[y] == Overdrawn(mem[s], dst, shown, start)
      modifies this`glass
      ensures Wf() && x' == start' <= i + 1 && glass == old(glass)[y := Overdrawn(mem[s], dst, shown, start')]
      ensures forall k :: start' <= k < i + 1 ==> Attr(mem[s][k]) == attr' && mem[s][k] != dst[k]
    {
      start', x', attr' := start, x, attr;
      if attr' != Attr(c) {
        attr' := Attr(c);
        if start' < i {
          EmitRun(s, start', i, y, x', dst, shown);
          x' := x' + (i - start');
          start' := i;
        }
      }
      if c == old_c {
        CellSkipped(mem[s], dst, shown, i);
        if start' < i {
          EmitRun(s, start', i, y, x', dst, shown);
          x' := x' + (i - start') + 1;
          start' := i + 1;
        } else {
          x' := x' + 1;
          start' := start' + 1;
        }
      }
    }

    /** The cell loop of fbcon_redraw and fbcon_redraw_softback: the cells in which memory rows `s` and
        `d` differ are drawn from row `s` on physical row `y` of the glass, and row `s` is copied into
        row `d` as well if `copy`. */
    method DrawCells(s: nat, d: nat, y: nat, copy: bool)
      requires Wf() && s < mem.Length && d < mem.Length && y < vrows
      requires copy ==> s != d
      modifies this`glass, (if copy then {mem} else {})
      ensures Wf()
      ensures glass == old(glass)[y := Overdrawn(old(mem[s]), old(mem[d]), old(glass[y]), cols)]
      ensures mem[d] == old(if copy then mem[s] else mem[d])
      ensures forall r :: 0 <= r < mem.Length && r != d ==> mem[r] == old(mem[r])
    {
      hide PartlyDrawn, Overdrawn;
      ghost var src, dst, shown := mem[s], mem[d], glass[y];
      var i, start, x := 0, 0, 0;
      var attr: Cell := 1;
      DrawnEnds(src, dst);
      OverdrawnNone(src, dst, shown);
      while i < cols
        invariant x == start <= i <= cols
        invariant Wf() && mem[s] == src
        invariant mem[d] == if copy then PartlyDrawn(src, dst, i) else dst
        invariant forall r :: 0 <= r < mem.Length && r != d ==> mem[r] == old(mem[r])
        invariant glass == old(glass)[y := Overdrawn(src, dst, shown, start)]
        invariant forall k :: start <= k < i ==> Attr(src[k]) == attr && src[k] != dst[k]
      {
        var c := mem[s][i];
        ghost var before := Overdrawn(src, dst, shown, start);
        CellLeft(src, dst, i);
        start, x, attr := StepCell(s, c, mem[d][i], start, i, y, x, attr, dst, shown);
        SetTwice(old(glass), y, before, Overdrawn(src, dst, shown, start));
        if copy {
          StoreCell(d, i, c, src, dst);
        }
        i := i + 1;
      }
      if start < i {
        EmitRun(s, start, i, y, x, dst, shown);
      }
      SetTwice(old(glass), y, Overdrawn(src, dst, shown, start), Overdrawn(src, dst, shown, cols));
    }

    /** DrawCells on row `line` of the screen.  If the glass showed row `d` it then shows row `s`. */
    method DrawRow(s: nat, d: nat, line: nat, copy: bool)
      requires Wf() && s < mem.Length && d < mem.Length && line < rows
      requires copy ==> s != d
      modifies this`glass, (if copy then {mem} else {})
      ensures Wf()
      ensures old(Logical()[line] == mem[d]) ==> Logical() == old(Logical())[line := mem[s]]
      ensures mem[..] == if copy then old(mem[..])[d := mem[s]] else old(mem[..])
    {
      RotatedRow(glass, yscroll, line);
      OverdrawnAll(mem[s], mem[d]);
      RowDrawn(glass, yscroll, line, mem[s]);
      DrawCells(s, d, RealRow(line), copy);
    }

    // ----- drawing by comparing rows ------------------------------------------

    /** One row of fbcon_redraw: screen row `line` takes the contents of screen row `from`. */
    method RedrawRow(s: nat, d: nat, line: nat, from: nat, ghost row: Row)
      requires Wf() && line < rows && from < rows && d == origin + line && s == origin + from && s != d
      requires row == Screen()[from]
      modifies this`glass, mem
      ensures Wf() && Kept() == old(Kept())
      ensures Screen() == old(Screen())[line := row]
      ensures old(Logical()[line] == Screen()[line]) ==> Logical() == old(Logical())[line := row]
    {
      ScreenUpdate(mem[..], origin, rows, line, mem[s]);
      DrawRow(s, d, line, true);
    }

    /** The glass shows the screen buffer on the rows fbcon_redraw is going to write. */
    ghost predicate Matches(line0: nat, n0: nat, offset: int)
      reads this`glass, this`yscroll, mem
      requires 0 <= yscroll < vrows == |glass| && rows <= vrows && origin + rows <= mem.Length
    {
      forall r :: 0 <= r < rows && Redrawn(line0, n0, offset, r) ==> Logical()[r] == Screen()[r]
    }

    /** fbcon_redraw: `n0` screen rows take the contents of the rows `offset` rows away, and the
        glass follows the screen buffer if it showed it before. */
    method Redraw(line0: nat, n0: nat, offset: int)
      requires Wf() && offset != 0 && line0 < rows
      requires RedrawFits(rows, line0, n0, offset)
      modifies this`glass, mem
      ensures Wf() && Kept() == old(Kept())
      ensures Screen() == Overlaid(old(Screen()), old(Screen()), line0, n0, offset)
      ensures old(Matches(line0, n0, offset)) ==>
                Logical() == Overlaid(old(Logical()), old(Screen()), line0, n0, offset)
    {
      hide History, Rotated, ScreenAt, Overlaid;
      ghost var screen0, logical0 := Screen(), Logical();
      ghost var right := Matches(line0, n0, offset);
      OverlaidNone(screen0, screen0, line0, offset);
      OverlaidNone(logical0, screen0, line0, offset);
      var line: int, count := line0, n0;
      var d: int := origin + line;
      var s: int := d + offset;
      ghost var done := 0;
      while 0 < count
        invariant 0 <= count && done == n0 - count
        invariant line == if offset > 0 then line0 + done else line0 - done
        invariant d == origin + line && s == d + offset
        invariant Wf() && Kept() == old(Kept())
        invariant Screen() == Overlaid(screen0, screen0, line0, done, offset)
        invariant right ==> Logical() == Overlaid(logical0, screen0, line0, done, offset)
      {
        ghost var from := line + offset;
        OverlaidRow(screen0, screen0, line0, done, offset, line);
        OverlaidRow(logical0, screen0, line0, done, offset, line);
        OverlaidRow(screen0, screen0, line0, done, offset, from);
        ghost var screen1, logical1 := Screen(), Logical();
        RedrawRow(s, d, line, line + offset, screen0[from]);
        OverlaidNext(screen0, screen0, line0, done, offset, line, screen1);
        if right {
          OverlaidNext(logical0, screen0, line0, done, offset, line, logical1);
        }
        done := done + 1;
        s, d := s + 1, d + 1;
        if offset > 0 {
          line := line + 1;
        } else {
          line := line - 1;
          s, d := s - 2, d - 2;
        }
        count := count - 1;
      }
    }

    // ----- soft scrollback ----------------------------------------------------

    /** The row the scrolled-back view starting at ring row `start` has at screen row `i`. */
    ghost function ViewRow(start: nat, i: nat): (r: Row)
      reads this`sin, mem
      requires buf <= start < end <= mem.Length && buf <= sin < end && origin + rows <= mem.Length && i < rows
    {
      mem[ViewPtr(origin, buf, end, sin, start, i)]
    }

    lemma ViewIsShown()
      requires Wf() && RingOk()
      ensures Shown() <==> forall i :: 0 <= i < rows ==> Logical()[i] == ViewRow(curr, i)
    {
      hide ViewPtr, History, ScreenAt, Rotated;
      forall i | 0 <= i < rows ensures ViewRow(curr, i) == Window(Kept(), Screen(), lines)[i] {
        ViewIsWindow(mem[..], origin, rows, buf, end, top, sin, curr, i);
      }
      if forall i :: 0 <= i < rows ==> Logical()[i] == ViewRow(curr, i) {
        assert forall i :: 0 <= i < rows ==> Logical()[..rows][i] == Window(Kept(), Screen(), lines)[i];
      } else {
        var i :| 0 <= i < rows && Logical()[i] != ViewRow(curr, i);
        assert Logical()[..rows][i] != Window(Kept(), Screen(), lines)[i];
      }
    }

    /** The pointer arithmetic of fbcon_redraw_softback. */
    method SeekSoftback(delta: int) returns (n: int)
      requires Wf() && RingOk() && softback && !logoShown
      modifies this`lines
      ensures Wf() && buf <= n < end
      ensures lines == Clamped(old(lines) - delta, |Kept()|)
      ensures Dist(buf, end, n, sin) == lines
    {
      n := curr + delta;
      lines := lines - delta;
      if delta < 0 {
        if curr < top && n < buf {
          n := n + (end - buf);
          if n < top {
            lines := lines - (top - n);
            n := top;
          }
        } else if curr >= top && n < top {
          lines := lines - (top - n);
          n := top;
        }
      } else {
        if curr > sin && n >= end {
          n := n + buf - end;
          if n > sin {
            n := sin;
            lines := 0;
          }
        } else if curr <= sin && n > sin {
          n := sin;
          lines := 0;
        }
      }
    }

    method NextRow(p: nat) returns (q: nat)
      ensures q == NextPtr(origin, buf, end, sin, p)
    {
      q := p + 1;
      if q == end {
        q := buf;
      }
      if q == sin {
        q := origin;
      }
    }

    /** The first `line` rows of the glass show the view from `curr`, the others the view from `from`. */
    ghost predicate PartlyMoved(from: nat, line: nat)
      reads this`glass, this`yscroll, this`sin, this`curr, mem
      requires 0 <= yscroll < vrows == |glass| && rows <= vrows && origin + rows <= mem.Length
      requires buf <= from < end <= mem.Length && buf <= sin < end && buf <= curr < end
    {
      forall i :: 0 <= i < rows ==> Logical()[i] == if i < line then ViewRow(curr, i) else ViewRow(from, i)
    }

    /** One turn of the row loop of fbcon_redraw_softback. */
    method DrawViewRow(from: nat, s: nat, d: nat, line: nat)
      requires Wf() && buf <= from < end && line < rows && PartlyMoved(from, line)
      requires s == ViewPtr(origin, buf, end, sin, curr, line) && d == ViewPtr(origin, buf, end, sin, from, line)
      modifies this`glass
      ensures Wf() && PartlyMoved(from, line + 1)
      ensures line + 1 < rows ==> NextPtr(origin, buf, end, sin, s) == ViewPtr(origin, buf, end, sin, curr, line + 1)
      ensures line + 1 < rows ==> NextPtr(origin, buf, end, sin, d) == ViewPtr(origin, buf, end, sin, from, line + 1)
    {
      DrawRow(s, d, line, false);
      if line + 1 < rows {
        NextViewPtr(origin, rows, buf, end, sin, from, line);
        NextViewPtr(origin, rows, buf, end, sin, curr, line);
      }
    }

    /** The row loop of fbcon_redraw_softback: the glass showed the view from `from`; make it show
        the view from `curr`. */
    method RedrawView(from: nat)
      requires Wf() && buf <= from < end && PartlyMoved(from, 0)
      modifies this`glass
      ensures Wf() && PartlyMoved(from, rows)
    {
      hide PartlyMoved, ViewPtr, NextPtr;
      ViewPtrFirst(origin, buf, end, sin, from);
      ViewPtrFirst(origin, buf, end, sin, curr);
      var d := from;
      if d == sin {
        d := origin;
      }
      var s := curr;
      if s == sin {
        s := origin;
      }
      var line, count := 0, rows;
      while 0 < count
        invariant 0 <= line && 0 <= count && line + count == rows && Wf() && PartlyMoved(from, line)
        invariant 0 < count ==> d == ViewPtr(origin, buf, end, sin, from, line)
        invariant 0 < count ==> s == ViewPtr(origin, buf, end, sin, curr, line)
      {
        DrawViewRow(from, s, d, line);
        line := line + 1;
        d := NextRow(d);
        s := NextRow(s);
        count := count - 1;
      }
    }

    /** fbcon_redraw_softback: move the view by `delta` rows, within the history, redrawing only
        the cells that change. */
    method RedrawSoftback(delta: int)
      requires Wf() && RingOk() && softback && !logoShown && Shown()
      modifies this`glass, this`curr, this`lines
      ensures Wf() && RingOk() && Shown()
      ensures lines == Clamped(old(lines) - delta, |Kept()|)
    {
      ViewIsShown();
      var n := SeekSoftback(delta);
      if n == curr {
        return;
      }
      var from := curr;
      curr := n;
      RedrawView(from);
      ViewIsShown();
    }

    /** One turn of fbcon_softback_note. */
    method NoteRowAt(p: nat)
      requires Wf() && origin <= p < origin + rows
      modifies mem, this`top, this`sin
      ensures Wf() && Screen() == old(Screen())
      ensures Kept() == LastN(old(Kept()) + [old(mem[p])], end - buf - 1)
    {
      hide History, LastN;
      mem[sin] := mem[p];
      sin := sin + 1;
      if sin == end {
        sin := buf;
      }
      if sin == top {
        top := top + 1;
        if top == end {
          top := buf;
        }
      }
      NoteRow(old(mem[..]), mem[..], buf, end, old(top), old(sin), old(mem[p]), top, sin);
    }

    /** One turn of the loop below, on row `u` of the screen. */
    method NoteNext(u: nat)
      requires Wf() && u < rows
      modifies mem, this`top, this`sin
      ensures Wf() && Screen() == old(Screen())
      ensures Kept() == LastN(old(Kept()) + [old(Screen())[u]], end - buf - 1)
    {
      hide History, LastN;
      NoteRowAt(origin + u);
    }

    /** The loop of fbcon_softback_note. */
    method NoteRows(t: nat, count0: nat)
      requires Wf() && t + count0 <= rows
      modifies mem, this`top, this`sin
      ensures Wf() && Screen() == old(Screen())
      ensures var u := t + count0; Kept() == NotedTo(old(Kept()), old(Screen()), t, u, end - buf - 1)
    {
      hide LastN, History, ScreenAt;
      ghost var h, s := Kept(), Screen();
      var count := count0;
      var u := t;
      while 0 < count
        invariant 0 <= count && u == t + (count0 - count)
        invariant Wf() && Screen() == s
        invariant Kept() == NotedTo(h, s, t, u, end - buf - 1)
      {
        NoteNext(u);
        count := count - 1;
        u := u + 1;
      }
    }

    /** fbcon_softback_note: rows [t, t + count) of the screen join the history, which keeps its
        last capacity - 1 rows, and the view returns to the screen. */
    method SoftbackNote(t: nat, count: nat)
      requires Wf() && t + count <= rows
      modifies mem, this`top, this`sin, this`curr
      ensures Wf() && Screen() == old(Screen()) && curr == sin
      ensures var u := t + count; Kept() == LastN(old(Kept()) + old(Screen())[t..u], end - buf - 1)
      ensures var u, n := t + count, end - buf - 1;
              forall batches {:trigger Noted(batches, n)} :: old(Kept()) == Noted(batches, n) ==>
                Kept() == Noted(batches + [old(Screen())[t..u]], n)
    {
      hide LastN, History, ScreenAt;
      ghost var h, s, u := Kept(), Screen(), t + count;
      NoteRows(t, count);
      curr := sin;
      assert Kept() == LastN(h + s[t..u], end - buf - 1) by {
        assert Kept() == NotedTo(h, s, t, u, end - buf - 1);
        NotedToIsLastN(h, s, t, u, end - buf - 1);
      }
      forall batches | h == Noted(batches, end - buf - 1)
        ensures Kept() == Noted(batches + [s[t..u]], end - buf - 1)
      {
        NotedMore(batches, s[t..u], end - buf - 1);
      }
    }

    /** The loop that takes the boot logo down: the newest ring rows go back, newest first, to the
        screen rows the logo covered, up to the first one. */
    method TakeBack() returns (p: nat, ghost n: nat)
      requires Wf()
      modifies mem
      ensures Wf() && buf <= p < end && n == Min(logoLines, |old(Kept())|)
      ensures Dist(buf, end, top, p) == |old(Kept())| - n
      ensures forall k :: 0 <= k < mem.Length && !(origin + logoLines - n <= k < origin + logoLines) ==>
                mem[k] == old(mem[k])
      ensures forall k :: origin + logoLines - n <= k < origin + logoLines ==>
                mem[k] == old(Kept())[|old(Kept())| - (origin + logoLines) + k]
    {
      hide LastN, History, Ahead;
      ghost var h, was := Kept(), mem[..];
      p := sin;
      var q := origin + logoLines;
      var i := 0;
      while i < logoLines && p != top
        invariant 0 <= i <= logoLines && i <= |h| && q == origin + logoLines - i
        invariant Wf() && buf <= p < end && Dist(buf, end, top, p) == |h| - i
        invariant forall k :: 0 <= k < mem.Length && !(q <= k < origin + logoLines) ==> mem[k] == old(mem[k])
        invariant forall k :: q <= k < origin + logoLines ==> mem[k] == h[|h| - (origin + logoLines) + k]
      {
        if p == buf {
          p := end;
        }
        p := p - 1;
        q := q - 1;
        HistoryAt(was, buf, end, top, sin, p);
        assert mem[p] == was[p] == h[|h| - i - 1];
        mem[q] := mem[p];
        i := i + 1;
      }
      n := i;
    }

    /** The part of fbcon_scrolldelta that takes the boot logo down.  `curr` stays where it is, so
        the ring pointers agree afterwards exactly when there was no row to take back. */
    method RetireLogo()
      requires Wf() && RingOk() && logoShown
      modifies mem, this`sin, this`logoShown
      ensures Wf() && !logoShown
      ensures var n := Min(logoLines, |old(Kept())|);
              && Kept() == old(Kept())[..|old(Kept())| - n]
              && (forall i :: 0 <= i < rows ==>
                    Screen()[i] == if logoLines - n <= i < logoLines then old(Kept())[|old(Kept())| - logoLines + i]
                                   else old(Screen())[i])
              && (RingOk() <==> n == 0)
    {
      hide LastN;
      var p, n := TakeBack();
      HistoryPrefix(old(mem[..]), mem[..], buf, end, top, sin, p);
      sin := p;
      logoShown := false;
    }

    /** fbcon_scrolldelta with soft scrollback on and the boot logo gone. */
    method ScrollDelta(delta: int)
      requires Wf() && RingOk() && Shown() && softback && !logoShown
      modifies this`glass, this`curr, this`lines
      ensures Wf() && RingOk() && Shown() && Abs() == Step(old(Abs()), LookEvent(delta), Capacity())
    {
      if delta == 0 {
        return;
      }
      RedrawSoftback(delta);
    }

    // ----- rectangles on the glass --------------------------------------------

    /** The driver's bmove on physical rows. */
    method DriverBmove(sy: nat, sx: nat, dy: nat, dx: nat, height: nat, width: nat)
      requires Wf() && sy + height <= vrows && dy + height <= vrows && sx + width <= cols && dx + width <= cols
      modifies this`glass
      ensures Wf() && Copied(old(glass), glass, cols, sy, sx, dy, dx, height, width)
    {
      hide Copied, CopyRect;
      glass := CopyRect(glass, cols, sy, sx, dy, dx, height, width);
      CopiedIsRect(old(glass), glass, cols, sy, sx, dy, dx, height, width);
    }

    /** The driver's clear on physical rows. */
    method DriverClear(sy: nat, sx: nat, height: nat, width: nat)
      requires Wf() && sx + width <= cols
      modifies this`glass
      ensures Wf() && Cleared(old(glass), glass, cols, sy, sx, height, width, erase)
    {
      hide Cleared, ClearRect;
      glass := ClearRect(glass, cols, sy, sx, height, width, erase);
      ClearedIsRect(old(glass), glass, cols, sy, sx, height, width, erase);
    }

    /** A driver copy between blocks that do not straddle the wrap. */
    method BmoveUnsplit(sy: nat, sx: nat, dy: nat, dx: nat, height: nat, width: nat)
      requires Wf() && 0 < height && Unsplit(vrows, yscroll, sy, height) && Unsplit(vrows, yscroll, dy, height)
      requires sy + height <= vrows && dy + height <= vrows && sx + width <= cols && dx + width <= cols
      modifies this`glass
      ensures Wf()
      ensures Copied(old(Logical()), Logical(), cols, sy, sx, dy, dx, height, width)
    {
      hide Copied, CopyRect, Rotated;
      RotatedIsGrid(glass, cols, yscroll);
      CopyRotated(glass, cols, yscroll, sy, sx, dy, dx, height, width);
      DriverBmove(RealRow(sy), sx, RealRow(dy), dx, height, width);
      CopiedIsRect(old(glass), glass, cols, RealRow(sy), sx, RealRow(dy), dx, height, width);
      CopiedIsRect(old(Logical()), Logical(), cols, sy, sx, dy, dx, height, width);
    }

    /** fbcon_bmove_rec: a copy in logical coordinates, cut at the wrap into driver copies that do
        not cross it, in an order in which no piece overwrites what a later piece reads. */
    method BmoveRec(sy: nat, sx: nat, dy: nat, dx: nat, height: nat, width: nat, y_break: nat)
      requires Wf() && y_break == vrows - yscroll && 0 < height
      requires sy + height <= vrows && dy + height <= vrows && sx + width <= cols && dx + width <= cols
      modifies this`glass
      ensures Wf()
      ensures Copied(old(Logical()), Logical(), cols, sy, sx, dy, dx, height, width)
      decreases height, 1
    {
      if sy < y_break && sy + height > y_break {
        BmoveSplit(sy, sx, dy, dx, height, width, y_break, y_break - sy);
        return;
      }
      if dy < y_break && dy + height > y_break {
        BmoveSplit(sy, sx, dy, dx, height, width, y_break, y_break - dy);
        return;
      }
      BmoveUnsplit(sy, sx, dy, dx, height, width);
    }

    /** The two halves of a cut copy, in the order that does not trash the source. */
    method BmoveSplit(sy: nat, sx: nat, dy: nat, dx: nat, height: nat, width: nat, y_break: nat, b: nat)
      requires Wf() && y_break == vrows - yscroll && 0 < b < height
      requires sy + height <= vrows && dy + height <= vrows && sx + width <= cols && dx + width <= cols
      modifies this`glass
      ensures Wf()
      ensures Copied(old(Logical()), Logical(), cols, sy, sx, dy, dx, height, width)
      decreases height, 0
    {
      hide CopyRect, Copied, Rotated;
      RotatedIsGrid(glass, cols, yscroll);
      ghost var l := Logical();
      if dy < sy {
        BmoveRec(sy, sx, dy, dx, b, width, y_break);
        ghost var half := Logical();
        BmoveRec(sy + b, sx, dy + b, dx, height - b, width, y_break);
        CopiedUp(l, half, Logical(), cols, sy, sx, dy, dx, height, width, b);
      } else {
        BmoveRec(sy + b, sx, dy + b, dx, height - b, width, y_break);
        ghost var half := Logical();
        BmoveRec(sy, sx, dy, dx, b, width, y_break);
        CopiedDown(l, half, Logical(), cols, sy, sx, dy, dx, height, width, b);
      }
    }

    /** A console that cannot be drawn on while it is blanked, and is. */
    predicate Dark()
      reads this`consoleBlanked
    {
      consoleBlanked && !canSoftBlank
    }

    /** fbcon_bmove: a dark console is left alone. */
    method Bmove(sy: nat, sx: nat, dy: nat, dx: nat, height: nat, width: nat)
      requires Wf()
      requires sy + height <= vrows && dy + height <= vrows && sx + width <= cols && dx + width <= cols
      modifies this`glass
      ensures Wf()
      ensures if Dark() then glass == old(glass)
              else Copied(old(Logical()), Logical(), cols, sy, sx, dy, dx, height, width)
    {
      RotatedIsGrid(glass, cols, yscroll);
      if !canSoftBlank && consoleBlanked {
        return;
      }
      if width == 0 || height == 0 {
        return;
      }
      BmoveRec(sy, sx, dy, dx, height, width, vrows - yscroll);
    }

    /** fbcon_clear: a clear in logical coordinates, cut at the wrap.  A dark console is left alone. */
    method Clear(sy: nat, sx: nat, height: nat, width: nat)
      requires Wf()
      requires sy + height <= vrows && sx + width <= cols
      modifies this`glass
      ensures Wf()
      ensures if Dark() then glass == old(glass)
              else Cleared(old(Logical()), Logical(), cols, sy, sx, height, width, erase)
    {
      hide ClearRect, Cleared, Rotated;
      RotatedIsGrid(glass, cols, yscroll);
      if !canSoftBlank && consoleBlanked {
        return;
      }
      if height == 0 || width == 0 {
        NothingCleared(Logical(), cols, sy, sx, height, width, erase);
        return;
      }
      var y_break := vrows - yscroll;
      if sy < y_break && sy + height - 1 >= y_break {
        var b := y_break - sy;
        ghost var l := Logical();
        ClearUnsplit(sy, sx, b, width);
        ghost var half := Logical();
        ClearUnsplit(sy + b, sx, height - b, width);
        ClearedBoth(l, half, Logical(), cols, sy, sx, height, width, b, erase);
      } else {
        ClearUnsplit(sy, sx, height, width);
      }
    }

    /** A driver clear of a block that does not straddle the wrap. */
    method ClearUnsplit(sy: nat, sx: nat, height: nat, width: nat)
      requires Wf() && 0 < height && sy + height <= vrows && sx + width <= cols && Unsplit(vrows, yscroll, sy, height)
      modifies this`glass
      ensures Wf()
      ensures Cleared(old(Logical()), Logical(), cols, sy, sx, height, width, erase)
    {
      hide ClearRect, Cleared, Rotated;
      RotatedIsGrid(glass, cols, yscroll);
      ClearRotated(glass, cols, yscroll, sy, sx, height, width, erase);
      DriverClear(RealRow(sy), sx, height, width);
      ClearedIsRect(old(glass), glass, cols, RealRow(sy), sx, height, width, erase);
      ClearedIsRect(old(Logical()), Logical(), cols, sy, sx, height, width, erase);
    }

    // ----- moving the start of the screen -------------------------------------

    ghost function Visible(): (v: seq<Row>)
      reads this`glass, this`yscroll
      requires 0 <= yscroll < vrows == |glass| && rows <= vrows
      ensures |v| == rows
    {
      Logical()[..rows]
    }

    method YwrapUp(count: nat)
      requires Wf() && count < rows
      modifies this`yscroll
      ensures Wf() && yscroll == StartAfter(YWrap, Up, old(yscroll), count, vrows, rows)
      ensures Advanced(old(Logical()), Logical(), rows, count)
    {
      yscroll := yscroll + count;
      if yscroll >= vrows {
        yscroll := yscroll - vrows;
      }
      WrapStart(glass, rows, old(yscroll), yscroll, count);
    }

    method YwrapDown(count: nat)
      requires Wf() && count < rows
      modifies this`yscroll
      ensures Wf() && yscroll == StartAfter(YWrap, Down, old(yscroll), count, vrows, rows)
      ensures Retreated(old(Logical()), Logical(), rows, count)
    {
      yscroll := yscroll - count;
      if yscroll < 0 {
        yscroll := yscroll + vrows;
      }
      WrapStart(glass, rows, old(yscroll), yscroll, count);
    }

    method YpanUp(count: nat)
      requires Wf() && 0 < count < rows && yscroll <= vrows - rows
      requires yscroll + count <= 2 * (vrows - rows)
      modifies this`yscroll, this`glass
      ensures Wf() && 0 <= yscroll <= vrows - rows
      ensures yscroll == StartAfter(YPan, Up, old(yscroll), count, vrows, rows)
      ensures Advanced(old(Logical()), Logical(), rows, count)
    {
      ghost var y := yscroll;
      if yscroll + count > vrows - rows {
        DriverBmove(vrows - rows, 0, 0, 0, rows, cols);
        yscroll := yscroll + count - (vrows - rows);
        PanUpJump(old(glass), glass, cols, rows, y, yscroll, count);
      } else {
        yscroll := yscroll + count;
        PanStart(glass, rows, y, yscroll, count);
      }
    }

    method YpanDown(count: nat)
      requires Wf() && 0 < count < rows && yscroll <= vrows - rows
      requires count - yscroll <= vrows - rows
      modifies this`yscroll, this`glass
      ensures Wf() && 0 <= yscroll <= vrows - rows
      ensures yscroll == StartAfter(YPan, Down, old(yscroll), count, vrows, rows)
      ensures Retreated(old(Logical()), Logical(), rows, count)
    {
      ghost var y := yscroll;
      if yscroll - count < 0 {
        DriverBmove(0, 0, vrows - rows, 0, rows, cols);
        yscroll := yscroll - count + (vrows - rows);
        PanDownJump(old(glass), glass, cols, rows, y, yscroll, count);
      } else {
        yscroll := yscroll - count;
        PanStart(glass, rows, y, yscroll, count);
      }
    }

    // ----- scrolling the glass ------------------------------------------------

    ghost predicate Region(t: nat, b: nat, count: nat) {
      0 < count && t + count < b <= rows
    }

    /** The rows above the region are copied down, then the screen start moves down. */
    method AdvanceStart(t: nat, count: nat) returns (ghost r1: seq<Row>)
      requires Wf() && ScrollOk() && 0 < count && t + count < rows && !Dark()
      requires mode == YWrap || (mode == YPan && yscroll + count <= 2 * (vrows - rows))
      modifies this`yscroll, this`glass
      ensures Wf() && ScrollOk() && |r1| == vrows
      ensures yscroll == StartAfter(mode, Up, old(yscroll), count, vrows, rows)
      ensures if 0 < t then Copied(old(Logical()), r1, cols, 0, 0, count, 0, t, cols) else r1 == old(Logical())
      ensures Advanced(r1, Logical(), rows, count)
    {
      hide Advanced, Retreated, Copied, Rotated, StartAfter;
      if t > 0 {
        Bmove(0, 0, count, 0, t, cols);
      }
      r1 := Logical();
      if mode == YWrap {
        YwrapUp(count);
      } else {
        YpanUp(count);
      }
    }

    /** The rows below the region are copied down, and the freed rows are cleared. */
    method RestoreBelow(b: nat, count: nat) returns (ghost r3: seq<Row>)
      requires Wf() && 0 < count <= b <= rows && !Dark()
      modifies this`glass
      ensures Wf() && |r3| == vrows
      ensures if b < rows then Copied(old(Logical()), r3, cols, b - count, 0, b, 0, rows - b, cols)
              else r3 == old(Logical())
      ensures Cleared(r3, Logical(), cols, b - count, 0, count, cols, erase)
    {
      if rows - b > 0 {
        Bmove(b - count, 0, b, 0, rows - b, cols);
      }
      r3 := Logical();
      Clear(b - count, 0, count, cols);
    }

    /** Scroll up by moving the start of the screen (wrap or pan mode). */
    method StartUp(t: nat, b: nat, count: nat)
      requires Wf() && ScrollOk() && Region(t, b, count) && !Dark()
      requires mode == YWrap || (mode == YPan && yscroll + count <= 2 * (vrows - rows))
      modifies this`yscroll, this`glass
      ensures Wf() && ScrollOk() && yscroll == StartAfter(mode, Up, old(yscroll), count, vrows, rows)
      ensures Visible() == ScrolledUp(old(Visible()), t, b, count, BlankRow(cols, erase))
    {
      ghost var r0 := Logical();
      ghost var r1 := AdvanceStart(t, count);
      ghost var r2 := Logical();
      ghost var r3 := RestoreBelow(b, count);
      StartMovedUp(r0, r1, r2, r3, Logical(), cols, rows, t, b, count, erase);
    }

    /** The rows below the region are copied up, then the screen start moves up. */
    method RetreatStart(b: nat, count: nat) returns (ghost r1: seq<Row>)
      requires Wf() && ScrollOk() && 0 < count < b <= rows && !Dark()
      requires mode == YWrap || (mode == YPan && count - yscroll <= vrows - rows)
      modifies this`yscroll, this`glass
      ensures Wf() && ScrollOk() && |r1| == vrows
      ensures yscroll == StartAfter(mode, Down, old(yscroll), count, vrows, rows)
      ensures if b < rows then Copied(old(Logical()), r1, cols, b, 0, b - count, 0, rows - b, cols)
              else r1 == old(Logical())
      ensures Retreated(r1, Logical(), rows, count)
    {
      hide Advanced, Retreated, Copied, Rotated, StartAfter;
      if rows - b > 0 {
        Bmove(b, 0, b - count, 0, rows - b, cols);
      }
      r1 := Logical();
      if mode == YWrap {
        YwrapDown(count);
      } else {
        YpanDown(count);
      }
    }

    /** The rows above the region are copied up, and the freed rows are cleared. */
    method RestoreAbove(t: nat, count: nat) returns (ghost r3: seq<Row>)
      requires Wf() && 0 < count && t + count <= rows && !Dark()
      modifies this`glass
      ensures Wf() && |r3| == vrows
      ensures if 0 < t then Copied(old(Logical()), r3, cols, count, 0, 0, 0, t, cols) else r3 == old(Logical())
      ensures Cleared(r3, Logical(), cols, t, 0, count, cols, erase)
    {
      if t > 0 {
        Bmove(count, 0, 0, 0, t, cols);
      }
      r3 := Logical();
      Clear(t, 0, count, cols);
    }

    /** Scroll down by moving the start of the screen (wrap or pan mode). */
    method StartDown(t: nat, b: nat, count: nat)
      requires Wf() && ScrollOk() && Region(t, b, count) && !Dark()
      requires mode == YWrap || (mode == YPan && count - yscroll <= vrows - rows)
      modifies this`yscroll, this`glass
      ensures Wf() && ScrollOk() && yscroll == StartAfter(mode, Down, old(yscroll), count, vrows, rows)
      ensures Visible() == ScrolledDown(old(Visible()), t, b, count, BlankRow(cols, erase))
    {
      ghost var r0 := Logical();
      ghost var r1 := RetreatStart(b, count);
      ghost var r2 := Logical();
      ghost var r3 := RestoreAbove(t, count);
      StartMovedDown(r0, r1, r2, r3, Logical(), cols, rows, t, b, count, erase);
    }

    /** Scroll by copying the region itself, cut at the wrap. */
    method RegionUp(t: nat, b: nat, count: nat)
      requires Wf() && Region(t, b, count) && !Dark()
      modifies this`glass
      ensures Wf()
      ensures Visible() == ScrolledUp(old(Visible()), t, b, count, BlankRow(cols, erase))
    {
      ghost var r := Logical();
      var u, height := t + count, b - t - count;
      Bmove(u, 0, t, 0, height, cols);
      ghost var moved := Logical();
      Clear(b - count, 0, count, cols);
      RegionMovedUp(r, moved, Logical(), cols, rows, t, b, count, u, height, erase);
    }

    method RegionDown(t: nat, b: nat, count: nat)
      requires Wf() && Region(t, b, count) && !Dark()
      modifies this`glass
      ensures Wf()
      ensures Visible() == ScrolledDown(old(Visible()), t, b, count, BlankRow(cols, erase))
    {
      ghost var r := Logical();
      var u, height := t + count, b - t - count;
      Bmove(t, 0, u, 0, height, cols);
      ghost var moved := Logical();
      Clear(t, 0, count, cols);
      RegionMovedDown(r, moved, Logical(), cols, rows, t, b, count, u, height, erase);
    }

    /** Scroll by driver copies of physical rows, in the mode whose screen never moves. */
    method MoveUp(t: nat, b: nat, count: nat)
      requires Wf() && Region(t, b, count) && yscroll == 0
      modifies this`glass
      ensures Wf()
      ensures Visible() == ScrolledUp(old(Visible()), t, b, count, BlankRow(cols, erase))
    {
      ghost var r := glass;
      var u, height := t + count, b - t - count;
      DriverBmove(u, 0, t, 0, height, cols);
      ghost var moved := glass;
      DriverClear(b - count, 0, count, cols);
      RegionMovedUp(r, moved, glass, cols, rows, t, b, count, u, height, erase);
      Unrotated(r);
      Unrotated(glass);
    }

    method MoveDown(t: nat, b: nat, count: nat)
      requires Wf() && Region(t, b, count) && yscroll == 0
      modifies this`glass
      ensures Wf()
      ensures Visible() == ScrolledDown(old(Visible()), t, b, count, BlankRow(cols, erase))
    {
      ghost var r := glass;
      var u, height := t + count, b - t - count;
      DriverBmove(t, 0, u, 0, height, cols);
      ghost var moved := glass;
      DriverClear(t, 0, count, cols);
      RegionMovedDown(r, moved, glass, cols, rows, t, b, count, u, height, erase);
      Unrotated(r);
      Unrotated(glass);
    }

    // ----- scrolling by redrawing ---------------------------------------------

    /** The part of screen rows [y, y + count) that an unsplit physical clear reaches. */
    ghost function Reach(y: nat, count: nat): (e: nat)
      reads this`yscroll
      requires 0 <= yscroll < vrows
    {
      if Unsplit(vrows, yscroll, y, count) then y + count else vrows - yscroll
    }

    /** The rows of `v` that a physical clear of [y, y + count) would leave on the glass are blank already. */
    ghost predicate StaleBlank(v: seq<Row>, y: nat, count: nat)
      reads this`yscroll, this`erase
      requires 0 <= yscroll < vrows && y + count <= |v|
    {
      forall i :: Reach(y, count) <= i < y + count ==> v[i] == BlankRow(cols, erase)
    }

    /** scr_memsetw over screen rows [y, y + count). */
    method BlankScreen(y: nat, count: nat)
      requires Wf() && y + count <= rows
      modifies mem
      ensures Wf() && Kept() == old(Kept())
      ensures forall i :: 0 <= i < rows ==>
                Screen()[i] == if y <= i < y + count then BlankRow(cols, erase) else old(Screen())[i]
    {
      forall i | 0 <= i < count {
        mem[origin + y + i] := BlankRow(cols, erase);
      }
    }

    /** The redraw_up and redraw_down strategies of fbcon_scroll. */
    method RedrawScroll(dir: Dir, t: nat, b: nat, count: nat)
      requires Wf() && Region(t, b, count)
      modifies this`glass, mem
      ensures Wf() && Kept() == old(Kept())
      ensures Screen() == Scrolled(dir, old(Screen()), t, b, count, BlankRow(cols, erase))
      ensures old(Visible() == Screen()) ==>
                (Visible() == Screen() <==> old(StaleBlank(Screen(), if dir == Up then b - count else t, count)))
    {
      hide Rotated, History, Scrolled, Overlaid, ScreenAt, Cleared, ClearRect;
      var y: nat := if dir == Up then b - count else t;
      var n := b - t - count;
      var line := if dir == Up then t else b - 1;
      var offset: int := if dir == Up then count else 0 - count;
      ghost var screen0, logical0, right := Screen(), Logical(), Visible() == Screen();
      Redraw(line, n, offset);
      ghost var logical1 := Logical();
      ClearReaches(glass, cols, yscroll, y, count, erase, Reach(y, count));
      ghost var before := glass;
      DriverClear(RealRow(y), 0, count, cols);
      ClearedIsRect(before, glass, cols, RealRow(y), 0, count, cols, erase);
      BlankScreen(y, count);
      RedrawScrollScreen(dir, screen0, Screen(), cols, rows, t, b, count, erase, line, n, offset, y);
      if right {
        RedrawScrollGlass(dir, screen0, logical0, Screen(), logical1, Logical(), cols, rows, t, b, count, erase,
                          line, n, offset, y, Reach(y, count));
      }
    }

    // ----- fbcon_scroll -------------------------------------------------------

    /** fbcon_set_origin: scroll the view back to the screen, unless the console is blanked. */
    method SetOrigin()
      requires Wf() && RingOk() && Shown()
      modifies this`glass, this`curr, this`lines
      ensures Wf() && RingOk() && Shown()
      ensures lines == if consoleBlanked then old(lines) else 0
    {
      if lines != 0 && !consoleBlanked {
        ScrollDelta(lines);
      }
    }

    /** The part of fbcon_cursor(CM_ERASE) that matters here: the view returns to the screen. */
    method EraseCursor()
      requires Wf() && RingOk() && Shown()
      modifies this`glass, this`curr, this`lines
      ensures Wf() && RingOk() && Shown()
      ensures lines == if consoleBlanked then old(lines) else 0
    {
      if lines != 0 {
        SetOrigin();
      }
    }

    /** The rows of history the ring has room for. */
    ghost function Capacity(): nat
      requires buf < end
    {
      if softback then end - buf - 1 else 0
    }

    /** The start of a scroll: fbcon_cursor(CM_ERASE), then fbcon_softback_note if upward.  The ring
        stays consistent exactly when nothing is noted, or the view was at the screen, or it could
        be brought back there. */
    method BeginScroll(dir: Dir, t: nat, count: nat)
      requires Wf() && RingOk() && Shown() && t + count <= rows
      modifies mem, this`glass, this`curr, this`lines, this`top, this`sin
      ensures Wf() && Screen() == old(Screen())
      ensures Kept() == KeptAfter(dir, old(Kept()), old(Screen()), t, count, Capacity())
      ensures RingOk() <==> old(lines) == 0 || !consoleBlanked || dir == Down || !softback
      ensures if old(lines) == 0 || !consoleBlanked then lines == 0 && Visible() == Screen() else lines == old(lines)
    {
      EraseCursor();
      WindowAtEnd(Kept(), Screen());
      if dir == Up && softback {
        SoftbackNote(t, count);
      }
    }

    /** Whether an upward or downward scroll of the region is a redraw (the goto redraw_up and
        redraw_down of fbcon_scroll, and the redraw mode itself). */
    ghost predicate UsesRedraw(dir: Dir, t: nat, b: nat, count: nat)
      reads this`yscroll, this`logoShown
    {
      if dir == Up && logoShown then true
      else match mode
        case YMove => false
        case YWrap => b - t - count <= 3 * rows / 4 && panRedraw
        case YPan => !PanFits(dir, t, b, count) && panRedraw
        case YRedraw => true
    }

    ghost predicate PanFits(dir: Dir, t: nat, b: nat, count: nat)
      reads this`yscroll
    {
      && (if dir == Up then yscroll + count <= 2 * (vrows - rows) else count - yscroll <= vrows - rows)
      && if scrollPartial then b - t - count > 3 * rows / 4 else b - t == rows
    }

    /** Whether such a scroll moves the start of the screen. */
    ghost predicate MovesStart(dir: Dir, t: nat, b: nat, count: nat)
      reads this`yscroll, this`logoShown
    {
      && !UsesRedraw(dir, t, b, count)
      && match mode
         case YWrap => b - t - count > 3 * rows / 4
         case YPan => PanFits(dir, t, b, count)
         case _ => false
    }

    /** Where the screen starts after a scroll that is not left undone. */
    ghost function NextStart(dir: Dir, t: nat, b: nat, count: nat): int
      reads this`yscroll, this`logoShown
    {
      if MovesStart(dir, t, b, count) then StartAfter(mode, dir, yscroll, count, vrows, rows) else yscroll
    }

    /** The strategies of fbcon_scroll that leave the screen buffer to the console core. */
    method ScrollGlass(dir: Dir, t: nat, b: nat, count: nat)
      requires Wf() && ScrollOk() && Region(t, b, count) && !Dark()
      requires !UsesRedraw(dir, t, b, count)
      modifies this`glass, this`yscroll
      ensures Wf() && ScrollOk() && yscroll == old(NextStart(dir, t, b, count))
      ensures Visible() == Scrolled(dir, old(Visible()), t, b, count, BlankRow(cols, erase))
    {
      match (mode, dir)
      case (YMove, Up) =>
        MoveUp(t, b, count);
      case (YMove, Down) =>
        MoveDown(t, b, count);
      case (YWrap, Up) =>
        if b - t - count > 3 * rows / 4 {
          StartUp(t, b, count);
        } else {
          RegionUp(t, b, count);
        }
      case (YWrap, Down) =>
        if b - t - count > 3 * rows / 4 {
          StartDown(t, b, count);
        } else {
          RegionDown(t, b, count);
        }
      case (YPan, Up) =>
        if yscroll + count <= 2 * (vrows - rows)
           && ((!scrollPartial && b - t == rows) || (scrollPartial && b - t - count > 3 * rows / 4)) {
          StartUp(t, b, count);
        } else {
          RegionUp(t, b, count);
        }
      case (YPan, Down) =>
        if count - yscroll <= vrows - rows
           && ((!scrollPartial && b - t == rows) || (scrollPartial && b - t - count > 3 * rows / 4)) {
          StartDown(t, b, count);
        } else {
          RegionDown(t, b, count);
        }
    }

    /** The tests of fbcon_scroll that end in a redraw. */
    method GoesToRedraw(dir: Dir, t: nat, b: nat, count: nat) returns (redraw: bool)
      ensures redraw == UsesRedraw(dir, t, b, count)
    {
      if dir == Up && logoShown {
        return true;
      }
      match mode
      case YMove =>
        redraw := false;
      case YWrap =>
        redraw := !(b - t - count > 3 * rows / 4) && panRedraw;
      case YPan =>
        var inside := if dir == Up then yscroll + count <= 2 * (vrows - rows) else count - yscroll <= vrows - rows;
        var large := (!scrollPartial && b - t == rows) || (scrollPartial && b - t - count > 3 * rows / 4);
        redraw := !(inside && large) && panRedraw;
      case YRedraw =>
        redraw := true;
    }

    /** The scroll proper, as a rule with the view at the screen. */
    method ScrollScreen(t: nat, b: nat, dir: Dir, count: nat) returns (handled: bool)
      requires Wf() && ScrollOk() && Region(t, b, count) && !Dark()
      modifies this`glass, this`yscroll, mem
      ensures Wf() && ScrollOk() && Kept() == old(Kept())
      ensures (handled <==> old(UsesRedraw(dir, t, b, count))) && yscroll == old(NextStart(dir, t, b, count))
      ensures var after := Scrolled(dir, old(Screen()), t, b, count, BlankRow(cols, erase));
              && Screen() == (if handled then after else old(Screen()))
              && (old(Visible() == Screen()) ==>
                    (Visible() == after <==>
                       !handled || old(StaleBlank(Screen(), if dir == Up then b - count else t, count))))
    {
      handled := GoesToRedraw(dir, t, b, count);
      if handled {
        RedrawScroll(dir, t, b, count);
      } else {
        ScrollGlass(dir, t, b, count);
      }
    }

    /** The view is at the screen, or fbcon_scroll can bring it back there. */
    predicate Returns()
      reads this`consoleBlanked, this`lines
    {
      lines == 0 || !consoleBlanked
    }

    /** fbcon_scroll.  The result tells whether the screen buffer was scrolled too.  A dark console is
        left alone.  The ring stays consistent exactly unless rows are noted while the view cannot be
        brought back. */
    method Scroll(t: nat, b: nat, dir: Dir, count: nat) returns (handled: bool)
      requires Wf() && ScrollOk() && RingOk() && Region(t, b, count) && (Dark() || Shown())
      modifies this`glass, this`yscroll, this`curr, this`lines, this`top, this`sin, mem
      ensures Wf() && ScrollOk()
      ensures RingOk() <==> Dark() || old(Returns()) || dir == Down || !softback
      ensures Dark() ==> !handled && Kept() == old(Kept()) && Screen() == old(Screen())
                         && lines == old(lines) && glass == old(glass) && yscroll == old(yscroll)
      ensures !Dark() ==>
                var after := Scrolled(dir, old(Screen()), t, b, count, BlankRow(cols, erase));
                && Kept() == KeptAfter(dir, old(Kept()), old(Screen()), t, count, Capacity())
                && (handled <==> old(UsesRedraw(dir, t, b, count)))
                && yscroll == old(NextStart(dir, t, b, count))
                && Screen() == (if handled then after else old(Screen()))
                && lines == (if old(Returns()) then 0 else old(lines))
                && (old(Returns()) ==>
                      (Visible() == after <==>
                         !handled || old(StaleBlank(Screen(), if dir == Up then b - count else t, count))))
    {
      hide Rotated, ScreenAt, History, Window, Scrolled, KeptAfter;
      if !canSoftBlank && consoleBlanked {
        return false;
      }
      BeginScroll(dir, t, count);
      handled := ScrollScreen(t, b, dir, count);
    }

    // ----- one scroll of the console ------------------------------------------

    /** What the console core does when fbcon_scroll returns 0: it moves and clears the rows of the
        screen buffer itself. */
    method ShiftScreen(dir: Dir, t: nat, b: nat, count: nat)
      requires Wf() && Region(t, b, count)
      modifies mem
      ensures Wf() && Kept() == old(Kept())
      ensures Screen() == Scrolled(dir, old(Screen()), t, b, count, BlankRow(cols, erase))
    {
      var after := Scrolled(dir, Screen(), t, b, count, BlankRow(cols, erase));
      forall i | 0 <= i < rows ensures |after[i]| == cols {
        ScrolledUpRow(Screen(), t, b, count, BlankRow(cols, erase), i);
        ScrolledDownRow(Screen(), t, b, count, BlankRow(cols, erase), i);
      }
      forall i | 0 <= i < rows {
        mem[origin + i] := after[i];
      }
    }

    ghost function Abs(): (v: View)
      reads mem, this`top, this`sin, this`lines
      requires buf <= top < end <= mem.Length && buf <= sin < end && origin + rows <= mem.Length
    {
      View(Kept(), Screen(), lines)
    }

    /** A scroll of the console: the pair of fbcon_scroll and the console core.  It takes the abstract
        scrolling step exactly if the console is not blanked, or the view is at the screen and nothing
        that should have been noted is lost.  Then, unless the console is dark, the glass goes on
        showing the view exactly unless a redraw scroll in wrap mode clears across the wrap rows that
        were not blank. */
    method ScrollConsole(t: nat, b: nat, dir: Dir, count: nat)
      requires Wf() && ScrollOk() && RingOk() && Region(t, b, count) && (Dark() || Shown())
      modifies this`glass, this`yscroll, this`curr, this`lines, this`top, this`sin, mem
      ensures Wf() && ScrollOk()
      ensures RingOk() <==> Dark() || old(Returns()) || dir == Down || !softback
      ensures Abs() == Step(old(Abs()), ScrollEvent(dir, t, b, count, BlankRow(cols, erase)), Capacity()) <==>
              old(Returns()) &&
              (Dark() ==> old(Kept()) == KeptAfter(dir, old(Kept()), old(Screen()), t, count, Capacity()))
      ensures old(Returns()) && !Dark() ==>
                (Shown() <==> !old(UsesRedraw(dir, t, b, count))
                              || old(StaleBlank(Screen(), if dir == Up then b - count else t, count)))
      ensures old(Returns()) && !Dark() && mode != YWrap ==> Shown()
      ensures yscroll == if Dark() then old(yscroll) else old(NextStart(dir, t, b, count))
    {
      OnlyWrapSplits(Screen(), if dir == Up then b - count else t, count);
      var handled := Scroll(t, b, dir, count);
      if !handled {
        ShiftScreen(dir, t, b, count);
      }
      WindowAtEnd(Kept(), Screen());
    }

    lemma OnlyWrapSplits(v: seq<Row>, y: nat, count: nat)
      requires Wf() && ScrollOk() && y + count <= rows == |v|
      ensures mode != YWrap ==> StaleBlank(v, y, count)
    {
    }
  }

  /** The first `n` cells drawn from the source row, the rest still as they were. */
  function PartlyDrawn(src: Row, dst: Row, n: nat): (r: Row)
    requires n <= |src| == |dst|
    ensures |r| == |src|
  {
    src[..n] + dst[n..]
  }

  lemma DrawnEnds(src: Row, dst: Row)
    requires |src| == |dst|
    ensures PartlyDrawn(src, dst, 0) == dst && PartlyDrawn(src, dst, |src|) == src
  {
  }

  lemma CellLeft(src: Row, dst: Row, i: nat)
    requires i < |src| == |dst|
    ensures PartlyDrawn(src, dst, i)[i] == dst[i]
  {
  }

  /** The glass row `shown` once the first `n` cells in which `src` and `dst` differ are drawn on it. */
  function Overdrawn(src: Row, dst: Row, shown: Row, n: nat): (r: Row)
    requires n <= |src| == |dst| == |shown|
    ensures |r| == |src|
  {
    seq(|src|, k requires 0 <= k < |src| => if k < n && src[k] != dst[k] then src[k] else shown[k])
  }

  lemma OverdrawnNone(src: Row, dst: Row, shown: Row)
    requires |src| == |dst| == |shown|
    ensures Overdrawn(src, dst, shown, 0) == shown
  {
  }

  /** On a row that showed `dst` that is drawing `src`. */
  lemma OverdrawnAll(src: Row, dst: Row)
    requires |src| == |dst|
    ensures Overdrawn(src, dst, dst, |src|) == src
  {
  }

  lemma RunDrawn(src: Row, dst: Row, shown: Row, from: nat, to: nat)
    requires from <= to <= |src| == |dst| == |shown| && forall k :: from <= k < to ==> src[k] != dst[k]
    ensures CopyCols(Overdrawn(src, dst, shown, from), src[from..to], 0, from, to - from)
         == Overdrawn(src, dst, shown, to)
  {
  }

  lemma CellSkipped(src: Row, dst: Row, shown: Row, i: nat)
    requires i < |src| == |dst| == |shown| && src[i] == dst[i]
    ensures Overdrawn(src, dst, shown, i + 1) == Overdrawn(src, dst, shown, i)
  {
  }

  /** The rows fbcon_redraw writes: `n` rows from `line` on, in the direction of `offset`. */
  predicate Redrawn(line: int, n: nat, offset: int, r: int) {
    if offset > 0 then line <= r < line + n else line - n < r <= line
  }

  predicate RedrawFits(rows: nat, line: int, n: nat, offset: int) {
    if offset > 0 then 0 <= line && line + n + offset <= rows else 0 <= line - n + 1 + offset && line < rows
  }

  /** `base` with the rows fbcon_redraw writes taken from `offset` rows away in `v`. */
  function Overlaid(base: seq<Row>, v: seq<Row>, line: int, n: nat, offset: int): (o: seq<Row>)
    requires |v| <= |base| && RedrawFits(|v|, line, n, offset)
    ensures |o| == |base|
  {
    if n == 0 then base
    else
      var next := if offset > 0 then line + n - 1 else line - n + 1;
      Overlaid(base, v, line, n - 1, offset)[next := v[next + offset]]
  }

  lemma OverlaidNone(base: seq<Row>, v: seq<Row>, line: int, offset: int)
    requires |v| <= |base| && RedrawFits(|v|, line, 0, offset)
    ensures Overlaid(base, v, line, 0, offset) == base
  {
  }

  lemma {:induction false} OverlaidRow(base: seq<Row>, v: seq<Row>, line: int, n: nat, offset: int, r: nat)
    requires |v| <= |base| && RedrawFits(|v|, line, n, offset) && r < |base|
    ensures Overlaid(base, v, line, n, offset)[r] ==
            if Redrawn(line, n, offset, r) then v[r + offset] else base[r]
  {
    if n != 0 {
      OverlaidRow(base, v, line, n - 1, offset, r);
    }
  }

  lemma OverlaidNext(base: seq<Row>, v: seq<Row>, line: int, n: nat, offset: int, next: int, now: seq<Row>)
    requires |v| <= |base| && RedrawFits(|v|, line, n + 1, offset)
    requires next == (if offset > 0 then line + n else line - n) && now == Overlaid(base, v, line, n, offset)
    ensures now[next := v[next + offset]] == Overlaid(base, v, line, n + 1, offset)
  {
  }

  /** What the redraw strategies leave in the screen buffer, row by row. */
  lemma RedrawScrollScreen(dir: Dir, s0: seq<Row>, s2: seq<Row>, cols: nat, rows: nat, t: nat, b: nat, count: nat,
                           erase: Cell, line: int, n: nat, offset: int, y: nat)
    requires |s0| == |s2| == rows && 0 < count && t + count < b <= rows && n == b - t - count
    requires dir == Up ==> y == b - count && line == t && offset == count
    requires dir == Down ==> y == t && line == b - 1 && offset == 0 - count
    requires forall i :: 0 <= i < rows ==>
               s2[i] == (if y <= i < y + count then BlankRow(cols, erase) else Overlaid(s0, s0, line, n, offset)[i])
    ensures s2 == Scrolled(dir, s0, t, b, count, BlankRow(cols, erase))
  {
    hide ScrolledUp, ScrolledDown, Overlaid, BlankRow;
    var want := Scrolled(dir, s0, t, b, count, BlankRow(cols, erase));
    forall i: nat | i < rows ensures s2[i] == want[i] {
      OverlaidRow(s0, s0, line, n, offset, i);
      ScrolledUpRow(s0, t, b, count, BlankRow(cols, erase), i);
      ScrolledDownRow(s0, t, b, count, BlankRow(cols, erase), i);
    }
  }

  /** And on the glass, if it showed the screen buffer. */
  lemma RedrawScrollGlass(dir: Dir, s0: seq<Row>, l0: seq<Row>, s2: seq<Row>, l1: seq<Row>, l2: seq<Row>,
                          cols: nat, rows: nat, t: nat, b: nat, count: nat, erase: Cell,
                          line: int, n: nat, offset: int, y: nat, reach: int)
    requires |s0| == |s2| == rows <= |l0| == |l1| == |l2| && 0 < count && t + count < b <= rows
    requires n == b - t - count && y <= reach <= y + count
    requires dir == Up ==> y == b - count && line == t && offset == count
    requires dir == Down ==> y == t && line == b - 1 && offset == 0 - count
    requires l0[..rows] == s0 && l1 == Overlaid(l0, s0, line, n, offset)
    requires forall i :: 0 <= i < rows ==>
               s2[i] == (if y <= i < y + count then BlankRow(cols, erase) else Overlaid(s0, s0, line, n, offset)[i])
    requires forall i :: 0 <= i < |l1| ==> l2[i] == (if y <= i < reach then BlankRow(cols, erase) else l1[i])
    ensures l2[..rows] == s2 <==> forall i :: reach <= i < y + count ==> s0[i] == BlankRow(cols, erase)
  {
    hide Overlaid, BlankRow;
    forall i: nat | i < rows ensures l2[i] == if reach <= i < y + count then s0[i] else s2[i] {
      OverlaidRow(s0, s0, line, n, offset, i);
      OverlaidRow(l0, s0, line, n, offset, i);
      assert l0[i] == l0[..rows][i];
    }
    if l2[..rows] == s2 {
      forall i | reach <= i < y + count ensures s0[i] == BlankRow(cols, erase) {
        assert l2[..rows][i] == s2[i];
      }
    }
  }

  lemma ScreenUpdate(m: seq<Row>, origin: nat, rows: nat, i: nat, row: Row)
    requires origin + rows <= |m| && i < rows
    ensures ScreenAt(m[origin + i := row], origin, rows) == ScreenAt(m, origin, rows)[i := row]
  {
  }

  lemma CellStored(src: Row, dst: Row, i: nat)
    requires i < |src| == |dst|
    ensures PartlyDrawn(src, dst, i)[i := src[i]] == PartlyDrawn(src, dst, i + 1)
  {
  }

  lemma SetTwice(g: seq<Row>, y: nat, a: Row, b: Row)
    requires y < |g|
    ensures g[y := a][y := b] == g[y := b]
  {
  }

  lemma RowDrawn(g: seq<Row>, yscroll: nat, line: nat, row: Row)
    requires yscroll < |g| && line < |g|
    ensures Rotated(g[RealY(|g|, yscroll, line) := row], yscroll) == Rotated(g, yscroll)[line := row]
  {
  }
}
