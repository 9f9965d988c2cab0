/** The console as its user sees it, without the frame buffer: a list of rows scrolls, the
    rows that leave it are remembered, and the view can look back at them. */
module ConsoleView {
  import opened Grid
  import opened SoftbackRing

  datatype Dir = Up | Down

  function Scrolled(dir: Dir, v: seq<Row>, t: nat, b: nat, count: nat, blank: Row): (r: seq<Row>)
    requires t + count <= b <= |v|
    ensures |r| == |v|
  {
    if dir == Up then ScrolledUp(v, t, b, count, blank) else ScrolledDown(v, t, b, count, blank)
  }

  function Min(a: nat, b: nat): nat {
    if a < b then a else b
  }

  /** `x` brought into 0..hi. */
  function Clamped(x: int, hi: nat): (c: nat)
    ensures c <= hi
  {
    if x < 0 then 0 else if x > hi then hi else x
  }

  /** `rows` rows ending `lines` rows above the end of the history and screen together. */
  function Window(h: seq<Row>, screen: seq<Row>, lines: int): (v: seq<Row>) {
    if 0 <= lines <= |h| then (h + screen)[|h| - lines..|h| - lines + |screen|] else []
  }

  lemma WindowAtEnd(h: seq<Row>, screen: seq<Row>)
    ensures Window(h, screen, 0) == screen
  {
  }

  /** The console as its user sees it: the rows that scrolled off, the screen, and how far the view
      is scrolled back. */
  datatype View = View(history: seq<Row>, screen: seq<Row>, lines: int)

  datatype Event =
    | ScrollEvent(dir: Dir, t: nat, b: nat, count: nat, blank: Row)
    | LookEvent(delta: int)

  predicate Enabled(v: View, e: Event) {
    e.ScrollEvent? ==> e.t + e.count <= e.b <= |v.screen|
  }

  /** The rows an event pushes off the screen. */
  function PushedOff(v: View, e: Event): seq<Row>
    requires Enabled(v, e)
  {
    if e.ScrollEvent? && e.dir == Up then v.screen[e.t..e.t + e.count] else []
  }

  /** The history once a scroll has noted the rows it pushes off, with room for `cap` rows of
      history (none if there is no ring). */
  function KeptAfter(dir: Dir, h: seq<Row>, screen: seq<Row>, t: nat, count: nat, cap: nat): (h': seq<Row>)
    requires t + count <= |screen|
  {
    if dir == Up && 0 < cap then var u := t + count; LastN(h + screen[t..u], cap) else h
  }

  /** One step of the console with room for `cap` rows of history. */
  function Step(v: View, e: Event, cap: nat): (v': View)
    requires Enabled(v, e)
    ensures |v'.screen| == |v.screen|
  {
    match e
    case ScrollEvent(dir, t, b, count, blank) =>
      View(KeptAfter(dir, v.history, v.screen, t, count, cap), Scrolled(dir, v.screen, t, b, count, blank), 0)
    case LookEvent(delta) =>
      v.(lines := Clamped(v.lines - delta, |v.history|))
  }

  function Run(v: View, events: seq<Event>, cap: nat): (v': View)
    requires Feasible(v, events)
    ensures |v'.screen| == |v.screen|
  {
    if events == [] then v
    else Step(Run(v, events[..|events| - 1], cap), events[|events| - 1], cap)
  }

  /** Every region fits the screen. */
  predicate Feasible(v: View, events: seq<Event>) {
    forall i :: 0 <= i < |events| ==> Enabled(v, events[i])
  }

  /** All the rows a run ever pushed off the screen. */
  function AllPushedOff(v: View, events: seq<Event>, cap: nat): seq<Row>
    requires Feasible(v, events)
  {
    if events == [] then []
    else
      var front := events[..|events| - 1];
      AllPushedOff(v, front, cap) + PushedOff(Run(v, front, cap), events[|events| - 1])
  }

  /** Over any run of scrolls and looks back, the history is exactly the last `cap` rows that were
      ever pushed off the screen, and the view never leaves it. */
  lemma {:induction false} RunKeepsHistory(v: View, events: seq<Event>, cap: nat)
    requires v.history == [] && v.lines == 0 && 0 < cap && Feasible(v, events)
    ensures Run(v, events, cap).history == LastN(AllPushedOff(v, events, cap), cap)
    ensures 0 <= Run(v, events, cap).lines <= |Run(v, events, cap).history|
  {
    hide LastN, Scrolled;
    if events != [] {
      var front, last := events[..|events| - 1], events[|events| - 1];
      RunKeepsHistory(v, front, cap);
      LastNAgain(AllPushedOff(v, front, cap), PushedOff(Run(v, front, cap), last), cap);
      var h := LastN(AllPushedOff(v, front, cap), cap);
      assert h + [] == h;
      LastNAll(h, cap);
    }
  }
}
