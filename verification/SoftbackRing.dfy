/** The soft scrollback as a ring of rows in memory.  Memory is addressed by row: one
    unit of address is one screen row of vc_size_row bytes, and every softback pointer
    is row aligned.  The ring occupies [buf, end); rows [top, sin) of it, read cyclically,
    are the rows that scrolled off the screen, oldest first. */
module SoftbackRing {
  import opened Grid

  /** Rows from `p` forward to `q` in the ring. */
  function Dist(buf: nat, end: nat, p: nat, q: nat): (n: nat)
    requires buf <= p < end && buf <= q < end
    ensures n < end - buf
  {
    if p <= q then q - p else q - p + (end - buf)
  }

  function Ahead(buf: nat, end: nat, p: nat, k: nat): (q: nat)
    requires buf <= p < end && k <= end - buf
    ensures buf <= q < end
  {
    if p + k < end then p + k else p + k - (end - buf)
  }

  /** The rows kept in the ring, oldest first. */
  function History(m: seq<Row>, buf: nat, end: nat, top: nat, sin: nat): (h: seq<Row>)
    requires buf <= top < end <= |m| && buf <= sin < end
    ensures |h| == Dist(buf, end, top, sin)
  {
    seq(Dist(buf, end, top, sin), k requires 0 <= k < Dist(buf, end, top, sin) => m[Ahead(buf, end, top, k)])
  }

  lemma HistoryRow(m: seq<Row>, buf: nat, end: nat, top: nat, sin: nat, k: nat)
    requires buf <= top < end <= |m| && buf <= sin < end && k < Dist(buf, end, top, sin)
    ensures History(m, buf, end, top, sin)[k] == m[Ahead(buf, end, top, k)]
  {
  }

  /** The screen buffer. */
  function ScreenAt(m: seq<Row>, origin: nat, rows: nat): (s: seq<Row>)
    requires origin + rows <= |m|
    ensures |s| == rows
  {
    m[origin..origin + rows]
  }

  function LastN(s: seq<Row>, n: nat): (r: seq<Row>)
    ensures |r| == if |s| <= n then |s| else n
  {
    if |s| <= n then s else s[|s| - n..]
  }

  /** Address of row `i` of the screen as scrolled back: ring rows from `curr` to `sin`,
      then the rows of the screen buffer. */
  function ViewPtr(origin: nat, buf: nat, end: nat, sin: nat, curr: nat, i: nat): (p: nat)
    requires buf <= curr < end && buf <= sin < end
  {
    var k := Dist(buf, end, curr, sin);
    if i < k then Ahead(buf, end, curr, i) else origin + i - k
  }

  /** The row at `p` in the ring is the one of the history as many rows after `top`. */
  lemma HistoryAt(m: seq<Row>, buf: nat, end: nat, top: nat, sin: nat, p: nat)
    requires buf <= top < end <= |m| && buf <= sin < end && buf <= p < end
    requires Dist(buf, end, top, p) < Dist(buf, end, top, sin)
    ensures History(m, buf, end, top, sin)[Dist(buf, end, top, p)] == m[p]
  {
    HistoryRow(m, buf, end, top, sin, Dist(buf, end, top, p));
  }

  lemma ViewPtrFirst(origin: nat, buf: nat, end: nat, sin: nat, curr: nat)
    requires buf <= curr < end && buf <= sin < end
    ensures ViewPtr(origin, buf, end, sin, curr, 0) == if curr == sin then origin else curr
  {
  }

  /** The ring and the screen buffer do not share rows. */
  predicate Apart(origin: nat, rows: nat, buf: nat, end: nat) {
    end <= origin || origin + rows <= buf
  }

  /** Taking `sin` back to `p` keeps the older rows. */
  lemma HistoryPrefix(m: seq<Row>, m': seq<Row>, buf: nat, end: nat, top: nat, sin: nat, p: nat)
    requires buf <= top < end <= |m| == |m'| && buf <= sin < end && buf <= p < end
    requires Dist(buf, end, top, p) <= Dist(buf, end, top, sin)
    requires forall k :: buf <= k < end ==> m'[k] == m[k]
    ensures History(m', buf, end, top, p) == History(m, buf, end, top, sin)[..Dist(buf, end, top, p)]
  {
  }

  // ----- noting rows ---------------------------------------------------------

  /** Storing one row at `sin`, and pushing `top` along when the ring is full, appends the
      row to the history and forgets the oldest row once capacity - 1 rows are kept. */
  lemma NoteRow(m: seq<Row>, m': seq<Row>, buf: nat, end: nat, top: nat, sin: nat, row: Row, top': nat, sin': nat)
    requires buf <= top < end <= |m| && buf <= sin < end && 1 < end - buf
    requires m' == m[sin := row] && sin' == Ahead(buf, end, sin, 1)
    requires top' == if sin' == top then Ahead(buf, end, top, 1) else top
    ensures History(m', buf, end, top', sin') == LastN(History(m, buf, end, top, sin) + [row], end - buf - 1)
  {
    var h, h' := History(m, buf, end, top, sin), History(m', buf, end, top', sin');
    var want := LastN(h + [row], end - buf - 1);
    assert |h'| == |want|;
    forall k | 0 <= k < |h'| ensures h'[k] == want[k] {
      var j := if sin' == top then k + 1 else k;
      assert Ahead(buf, end, top', k) == Ahead(buf, end, top, j);
      assert want[k] == (h + [row])[j];
    }
  }

  lemma LastNAll(s: seq<Row>, n: nat)
    requires |s| <= n
    ensures LastN(s, n) == s
  {
  }

  /** Forgetting down to `n` rows twice is forgetting down to `n` rows once. */
  lemma LastNAgain(a: seq<Row>, b: seq<Row>, n: nat)
    ensures LastN(LastN(a, n) + b, n) == LastN(a + b, n)
  {
  }

  /** The history `h` after rows [t, u) of the screen were noted one by one. */
  function NotedTo(h: seq<Row>, screen: seq<Row>, t: nat, u: nat, n: nat): (r: seq<Row>)
    requires t <= u <= |screen|
    decreases u
  {
    if u == t then h else LastN(NotedTo(h, screen, t, u - 1, n) + [screen[u - 1]], n)
  }

  lemma {:induction false} NotedToIsLastN(h: seq<Row>, screen: seq<Row>, t: nat, u: nat, n: nat)
    requires t <= u <= |screen| && |h| <= n
    ensures NotedTo(h, screen, t, u, n) == LastN(h + screen[t..u], n)
    decreases u
  {
    hide LastN;
    if u == t {
      assert h + screen[t..u] == h;
      LastNAll(h, n);
    } else {
      NotedToIsLastN(h, screen, t, u - 1, n);
      LastNAgain(h + screen[t..u - 1], [screen[u - 1]], n);
      assert h + screen[t..u - 1] + [screen[u - 1]] == h + screen[t..u];
    }
  }

  /** The history after noting each batch of rows in turn, starting from an empty ring. */
  function Noted(batches: seq<seq<Row>>, n: nat): (h: seq<Row>) {
    if batches == [] then []
    else LastN(Noted(batches[..|batches| - 1], n) + batches[|batches| - 1], n)
  }

  lemma NotedMore(batches: seq<seq<Row>>, last: seq<Row>, n: nat)
    ensures Noted(batches + [last], n) == LastN(Noted(batches, n) + last, n)
  {
    assert (batches + [last])[..|batches|] == batches;
  }

  function Concat(batches: seq<seq<Row>>): (r: seq<Row>) {
    if batches == [] then [] else Concat(batches[..|batches| - 1]) + batches[|batches| - 1]
  }

  /** After any run of notes the ring holds exactly the last rows ever noted, in order. */
  lemma {:induction false} NotedIsLastN(batches: seq<seq<Row>>, n: nat)
    ensures Noted(batches, n) == LastN(Concat(batches), n)
  {
    if batches != [] {
      var front, last := batches[..|batches| - 1], batches[|batches| - 1];
      NotedIsLastN(front, n);
      LastNAgain(Concat(front), last, n);
    }
  }

  // ----- the view ------------------------------------------------------------

  /** What the scrolled-back screen shows is a window on the history followed by the screen. */
  lemma ViewIsWindow(m: seq<Row>, origin: nat, rows: nat, buf: nat, end: nat, top: nat, sin: nat, curr: nat, i: nat)
    requires buf <= top < end <= |m| && buf <= sin < end && buf <= curr < end
    requires origin + rows <= |m| && i < rows
    requires Dist(buf, end, curr, sin) <= Dist(buf, end, top, sin)
    ensures var h := History(m, buf, end, top, sin);
            ViewPtr(origin, buf, end, sin, curr, i) < |m| &&
            m[ViewPtr(origin, buf, end, sin, curr, i)] ==
              (h + ScreenAt(m, origin, rows))[|h| - Dist(buf, end, curr, sin) + i]
  {
    var h := History(m, buf, end, top, sin);
    var k := Dist(buf, end, curr, sin);
    if i < k {
      assert Ahead(buf, end, curr, i) == Ahead(buf, end, top, |h| - k + i);
    }
  }

  /** The row after `p` in the view: off the end of the ring to its start, and from the newest
      ring row to the screen buffer. */
  function NextPtr(origin: nat, buf: nat, end: nat, sin: nat, p: nat): nat {
    var q := if p + 1 == end then buf else p + 1;
    if q == sin then origin else q
  }

  /** Stepping the read pointer one row, with the two wrap tests, follows the view. */
  lemma NextViewPtr(origin: nat, rows: nat, buf: nat, end: nat, sin: nat, curr: nat, i: nat)
    requires buf <= curr < end && buf <= sin < end && Apart(origin, rows, buf, end) && i + 1 < rows
    ensures ViewPtr(origin, buf, end, sin, curr, i + 1) ==
            NextPtr(origin, buf, end, sin, ViewPtr(origin, buf, end, sin, curr, i))
  {
  }
}
