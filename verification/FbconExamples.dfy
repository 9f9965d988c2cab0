/** Runs of the console in which the driver goes wrong. */
module FbconExamples {
  import opened Grid
  import opened SoftbackRing
  import opened ConsoleView
  import opened Fbcon

  const BLANK: Cell := 0x0720
  const A: Cell := 0x0741

  /** Ten rows of one A each. */
  function Text(): (s: seq<Row>)
    ensures |s| == 10 && IsGrid(s, 1)
  {
    seq(10, _ => [A])
  }

  /** In wrap mode a scroll of the whole screen down by one row puts the start of the screen in the last
      row of the frame buffer. */
  method ScrolledDownOnce() returns (c: Console)
    ensures fresh(c) && fresh(c.mem) && c.Wf() && c.ScrollOk() && c.RingOk() && c.Shown()
    ensures c.mode == YWrap && c.rows == c.vrows == 10 && c.cols == 1 && c.panRedraw && c.erase == BLANK
    ensures c.yscroll == 9 && c.lines == 0 && !c.consoleBlanked && !c.logoShown && c.Screen()[1] == [A]
  {
    hide Rotated, ScreenAt, History, Window, ScrolledDown, ScrolledUp, KeptAfter;
    c := new Console(YWrap, 10, 1, 10, 6, 0, true, true, true, BLANK, Text());
    c.ScrollConsole(0, 10, Down, 1);
    ScrolledDownRow(Text(), 0, 10, 1, BlankRow(1, BLANK), 1);
  }

  /** A redraw scroll of its upper nine rows then leaves an old row on the glass where the screen buffer
      has a blank one. */
  method StaleRow() returns (c: Console)
    ensures fresh(c) && c.Wf() && c.RingOk() && c.lines == 0 && !c.consoleBlanked && !c.Shown()
  {
    hide Rotated, ScreenAt, History, Window, ScrolledDown, ScrolledUp, KeptAfter;
    c := ScrolledDownOnce();
    assert BlankRow(1, BLANK)[0] == BLANK;
    assert !c.StaleBlank(c.Screen(), 0, 2);
    c.ScrollConsole(0, 9, Down, 2);
  }

  /** Scrolled back by one row and then blanked, a console that may soft-blank loses count of its ring
      rows when it scrolls. */
  method NotedWhileBlanked() returns (c: Console)
    ensures fresh(c) && c.Wf() && !c.RingOk()
  {
    hide Rotated, ScreenAt, History, Window, ScrolledDown, ScrolledUp;
    c := new Console(YMove, 10, 1, 10, 6, 0, false, true, true, BLANK, Text());
    c.ScrollConsole(0, 10, Up, 1);
    assert |c.Kept()| == 1;
    c.ScrollDelta(-1);
    c.consoleBlanked := true;
    c.ScrollConsole(0, 10, Up, 1);
  }

  /** Taking down a logo of one line, with one row in the ring, leaves the view pointer behind. */
  method LogoTakenDown() returns (c: Console)
    ensures fresh(c) && c.Wf() && !c.RingOk()
  {
    hide Rotated, ScreenAt, History, Window, ScrolledDown, ScrolledUp;
    c := new Console(YMove, 10, 1, 10, 6, 1, false, true, true, BLANK, Text());
    c.ScrollConsole(0, 10, Up, 1);
    assert |c.Kept()| == 1;
    c.logoShown := true;
    c.RetireLogo();
  }
}
