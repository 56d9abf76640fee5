/**
 * Window geometry of GNU Zile (src/redisplay.c): resync_redisplay and
 * resize_windows.  The terminal's width and height are parameters.
 */
module Redisplay {
  import opened Windows

  /**
   * The topdelta resync_redisplay computes from the old one, the point line
   * it saw last time, the point line now and the number of text rows.
   */
  function ResyncTopdelta(top: nat, last: nat, line: nat, eheight: int): (t: nat)
    requires eheight >= 0
    // The point did not move: the view does not move either.
    ensures line == last ==> t == top
    // The point moved down and its row stays above the status line: the view follows it.
    ensures line > last && top + (line - last) < eheight ==> t == top + (line - last)
    // The point moved up and its row does not go above the window: the view follows it,
    // whether or not that row is below the text rows.
    ensures line < last && top >= last - line ==> t == top - (last - line)
    // Otherwise the point is recentred.
    ensures line > last && top + (line - last) >= eheight ==> t == RecenterTop(line, eheight)
    ensures line < last && top + (line - last) < 0 ==> t == RecenterTop(line, eheight)
    // A point row inside the text rows stays inside them.
    ensures top <= last && top < eheight ==> t <= line && t < eheight
  {
    var delta := line - last;
    if delta == 0 then top
    else if (delta > 0 && top + delta < eheight) || (delta < 0 && top >= -delta) then top + delta
    else if line > eheight / 2 then eheight / 2
    else line
  }

  /**
   * The backward branch does not compare with eheight: a window whose
   * topdelta is already past its text rows keeps shifting by delta.
   */
  lemma BackwardMoveKeepsOffset()
    ensures ResyncTopdelta(10, 5, 4, 3) == 9
  {
  }

  /** resync_redisplay: bring the current window's view in line with the point that moved. */
  method ResyncRedisplay(f: Frame)
    requires f.Valid()
    modifies f
    ensures f.Valid()
    ensures f.cur == old(f.cur) && f.curBp == old(f.curBp) && f.points == old(f.points)
    ensures var w := old(f.wins[f.cur]);
            var line := old(f.points[f.curBp]).n;
            f.wins == old(f.wins)[f.cur := w.(topdelta := ResyncTopdelta(w.topdelta, w.lastpointn, line, w.eheight),
                                              lastpointn := line)]
    ensures f.wins[f.cur].lastpointn == f.points[f.curBp].n
    ensures TotalRows(f.wins) == old(TotalRows(f.wins))
  {
    var w := f.wins[f.cur];
    var line := f.points[f.curBp].n;
    var delta := line - w.lastpointn;
    var top := w.topdelta;
    if delta != 0 {
      if (delta > 0 && w.topdelta + delta < w.eheight) || (delta < 0 && w.topdelta >= -delta) {
        top := w.topdelta + delta;
      } else if line > w.eheight / 2 {
        top := w.eheight / 2;
      } else {
        top := line;
      }
    }
    f.wins := f.wins[f.cur := w.(topdelta := top, lastpointn := line)];
    TotalRowsUpdate(old(f.wins), f.cur, f.wins[f.cur]);
  }

  // ---------------------------------------------------------------------
  // resize_windows
  // ---------------------------------------------------------------------

  /** Rows shared out one at a time from the head, cyclically: d/n each, one more for the first d%n. */
  function Share(d: nat, n: nat, j: nat): nat
    requires n > 0
  {
    d / n + (if j < d % n then 1 else 0)
  }

  /** Division with a remainder in [0, n) is unique. */
  lemma DivModUnique(x: int, n: int, q: int, r: int)
    requires n > 0 && 0 <= r < n && x == q * n + r
    ensures x / n == q && x % n == r
  {
    var q', r' := x / n, x % n;
    assert (q - q') * n == r' - r;
    MulBetween(q - q', n);
  }

  lemma MulBetween(a: int, n: int)
    requires n > 0 && -n < a * n < n
    ensures a == 0
  {
  }

  /** After `rounds` full rounds and `pos` more rows, each window has had its Share. */
  lemma ShareOfRounds(d: nat, n: nat, rounds: nat, pos: nat)
    requires n > 0 && pos <= n && d == rounds * n + pos
    ensures forall j :: 0 <= j < n ==> Share(d, n, j) == rounds + (if j < pos then 1 else 0)
  {
    if pos == n {
      DivModUnique(d, n, rounds + 1, 0);
    } else {
      DivModUnique(d, n, rounds, pos);
    }
  }

  /** The row taken in round p from window j is among the Share(e, n, j) rows it loses. */
  lemma ShareAtLeast(e: nat, n: nat, p: nat, j: nat)
    requires n > 0 && j < n && p * n + j < e
    ensures Share(e, n, j) >= p + 1
  {
    var q, r := e / n, e % n;
    assert (p - q) * n < r - j + 0 * n;
    MulBelow(p - q, n);
    if p == q {
      assert j < r;
    }
  }

  lemma MulBelow(a: int, n: int)
    requires n > 0 && a * n < n
    ensures a <= 0
  {
  }

  /**
   * What the shrink loop of resize_windows needs to never reach its
   * delete_window branch: with several windows, each keeps at least 2 rows
   * after giving up its share of e rows.
   */
  ghost predicate ShrinkFits(ws: seq<Window>, e: int)
  {
    e > 0 && |ws| > 1 ==> forall j :: 0 <= j < |ws| ==> ws[j].fheight - Share(e, |ws|, j) >= 2
  }

  /** The change resize_windows makes to window j's rows for a terminal of height h. */
  function ResizeDelta(ws: seq<Window>, h: int, j: nat): (delta: int)
    requires j < |ws|
    // Rows missing are shared out evenly, the first windows getting one more.
    ensures var d := h - 1 - TotalRows(ws);
            d > 0 ==> d / |ws| <= delta <= d / |ws| + 1
    // Rows in excess are taken evenly from several windows.
    ensures var e := TotalRows(ws) - (h - 1);
            e >= 0 && |ws| > 1 ==> -(e / |ws|) - 1 <= delta <= -(e / |ws|)
    // A single window gives up the excess, but never goes below 2 rows by shrinking.
    ensures var e := TotalRows(ws) - (h - 1);
            e >= 0 && |ws| == 1 ==>
              && -e <= delta <= 0
              && (delta == -e || ws[j].fheight + delta <= 2)
              && (delta < 0 ==> ws[j].fheight + delta >= 2)
  {
    var d := h - 1 - TotalRows(ws);
    if d > 0 then Share(d, |ws|, j)
    else if |ws| > 1 then -(Share(-d, |ws|, j) as int)
    else if ws[j].fheight > 2 then -(if -d < ws[j].fheight - 2 then -d else ws[j].fheight - 2)
    else 0
  }

  /** The grow loop of resize_windows: d rows go to the windows one at a time, round-robin from the head. */
  method GrowHeights(ws: seq<Window>, d: int) returns (r: seq<Window>)
    requires |ws| > 0 && d > 0
    ensures |r| == |ws|
    ensures forall j :: 0 <= j < |r| ==> r[j] == Resize(ws[j], Share(d, |ws|, j))
    ensures TotalRows(r) == TotalRows(ws) + d
  {
    var n := |ws|;
    r := ws;
    var hdelta := d;
    var i := 0;
    ghost var rounds := 0;
    ghost var base := 0;
    while hdelta > 0
      invariant 0 <= hdelta <= d && 0 <= i <= n && |r| == n
      invariant d - hdelta == base + i && base == rounds * n
      invariant forall j :: 0 <= j < n ==> r[j] == Resize(ws[j], rounds + (if j < i then 1 else 0))
      invariant TotalRows(r) == TotalRows(ws) + (d - hdelta)
    {
      if i == n {
        assert (rounds + 1) * n == rounds * n + n;
        i := 0;
        rounds := rounds + 1;
        base := base + n;
      }
      TotalRowsUpdate(r, i, Resize(r[i], 1));
      r := r[i := Resize(r[i], 1)];
      hdelta := hdelta - 1;
      i := i + 1;
    }
    ShareOfRounds(d, n, rounds, i);
  }

  /** Where the shrink loop stands after taking e + hdelta of its e rows. */
  ghost predicate ShrinkState(ws: seq<Window>, orig: seq<Window>, e: nat, hdelta: int, rounds: nat, pos: nat)
  {
    && |ws| == |orig| > 0
    && (|ws| > 1 ==>
          && e + hdelta == rounds * |ws| + pos && pos < |ws|
          && forall j :: 0 <= j < |ws| ==> ws[j] == Resize(orig[j], -(rounds + (if j < pos then 1 else 0))))
    && (|ws| == 1 ==>
          && ws[0] == Resize(orig[0], -(e + hdelta))
          && (e + hdelta > 0 ==> ws[0].fheight >= 2))
  }

  /**
   * One pass of the for loop inside resize_windows's while (decreased) loop:
   * from the head, each window of more than 2 rows gives one up while rows
   * are still to be taken.
   */
  method ShrinkPass(ws: seq<Window>, hdelta0: int, ghost e: nat, ghost orig: seq<Window>,
                    ghost rounds0: nat, ghost pos0: nat)
    returns (r: seq<Window>, hdelta: int, decreased: bool, ghost rounds: nat, ghost pos: nat)
    requires -(e as int) <= hdelta0 <= 0
    requires ShrinkFits(orig, e) && ShrinkState(ws, orig, e, hdelta0, rounds0, pos0)
    requires hdelta0 < 0 && |ws| > 1 ==> pos0 == 0
    ensures |r| == |ws|
    ensures hdelta0 <= hdelta <= 0
    ensures decreased <==> hdelta > hdelta0
    ensures ShrinkState(r, orig, e, hdelta, rounds, pos)
    ensures hdelta < 0 && |ws| > 1 ==> pos == 0
    ensures hdelta0 < 0 && |ws| > 1 ==> decreased
    ensures |ws| == 1 && !decreased ==> hdelta == 0 || r[0].fheight <= 2
    ensures TotalRows(r) == TotalRows(ws) - (hdelta - hdelta0)
  {
    var n := |ws|;
    r, hdelta, decreased, rounds, pos := ws, hdelta0, false, rounds0, pos0;
    var j := 0;
    while j < n && hdelta < 0
      invariant 0 <= j <= n && hdelta0 <= hdelta <= 0 && |r| == n
      invariant decreased <==> hdelta > hdelta0
      invariant ShrinkState(r, orig, e, hdelta, rounds, pos)
      invariant n > 1 && hdelta0 < 0 ==> (j == n && pos == 0) || (j < n && pos == j)
      invariant n > 1 && hdelta0 < 0 && j > 0 ==> decreased
      invariant n == 1 && !decreased && j == 1 ==> r[0].fheight <= 2
      invariant TotalRows(r) == TotalRows(ws) - (hdelta - hdelta0)
    {
      if n > 1 {
        RowAvailable(r, orig, e, hdelta, rounds, pos);
      }
      if r[j].fheight > 2 {
        TakeRow(r, orig, e, hdelta, rounds, pos, j);
        TotalRowsUpdate(r, j, Resize(r[j], -1));
        r := r[j := Resize(r[j], -1)];
        hdelta := hdelta + 1;
        decreased := true;
        if pos + 1 == n {
          pos, rounds := 0, rounds + 1;
        } else {
          pos := pos + 1;
        }
      } else if n > 1 {
        // delete_window (wp): never reached under ShrinkFits.
        assert false;
      }
      j := j + 1;
    }
  }

  /** With several windows, the window whose turn it is has a row to give: ShrinkFits leaves it 2 after its share. */
  lemma RowAvailable(r: seq<Window>, orig: seq<Window>, e: nat, hdelta: int, rounds: nat, pos: nat)
    requires ShrinkFits(orig, e) && ShrinkState(r, orig, e, hdelta, rounds, pos)
    requires |r| > 1 && hdelta < 0
    ensures r[pos].fheight > 2
  {
    ShareAtLeast(e, |r|, rounds, pos);
  }

  /** Taking a row from the window whose turn it is moves the round-robin state one step on. */
  lemma TakeRow(r: seq<Window>, orig: seq<Window>, e: nat, hdelta: int, rounds: nat, pos: nat, j: nat)
    requires ShrinkState(r, orig, e, hdelta, rounds, pos) && j < |r| && hdelta < 0 && r[j].fheight > 2
    requires |r| > 1 ==> j == pos
    ensures ShrinkState(r[j := Resize(r[j], -1)], orig, e, hdelta + 1,
                        if pos + 1 == |r| then rounds + 1 else rounds,
                        if pos + 1 == |r| then 0 else pos + 1)
  {
    if |r| > 1 && pos + 1 == |r| {
      assert (rounds + 1) * |r| == rounds * |r| + |r|;
    }
  }

  /** The shrink loop of resize_windows, taking e rows. */
  method ShrinkHeights(ws: seq<Window>, e: nat) returns (r: seq<Window>)
    requires |ws| > 0 && ShrinkFits(ws, e)
    ensures |r| == |ws|
    ensures |ws| > 1 ==>
              && (forall j :: 0 <= j < |r| ==> r[j] == Resize(ws[j], -(Share(e, |ws|, j) as int)))
              && TotalRows(r) == TotalRows(ws) - e
    ensures |ws| == 1 ==>
              var h0 := ws[0].fheight;
              r[0] == Resize(ws[0], -(if h0 > 2 then (if e < h0 - 2 then e else h0 - 2) else 0))
  {
    var n := |ws|;
    r := ws;
    var hdelta := -(e as int);
    var decreased := true;
    ghost var rounds: nat, pos: nat := 0, 0;
    while decreased
      invariant -(e as int) <= hdelta <= 0 && |r| == n
      invariant ShrinkState(r, ws, e, hdelta, rounds, pos)
      invariant hdelta < 0 && n > 1 ==> pos == 0
      invariant !decreased && n > 1 ==> hdelta == 0
      invariant !decreased && n == 1 ==> hdelta == 0 || r[0].fheight <= 2
      invariant TotalRows(r) == TotalRows(ws) - (e + hdelta)
      decreases -2 * hdelta + (if decreased then 1 else 0)
    {
      r, hdelta, decreased, rounds, pos := ShrinkPass(r, hdelta, e, ws, rounds, pos);
    }
    if n > 1 {
      ShareOfRounds(e, n, rounds, pos);
    }
  }

  /**
   * resize_windows: every window takes the terminal width w; the heights
   * are brought to a total of h - 1 rows (the minibuffer line aside) by
   * adding rows round-robin from the head, or by taking rows from windows of
   * more than 2 rows; then the current window is recentred.
   */
  method ResizeWindows(f: Frame, w: nat, h: int)
    requires f.Valid() && ShrinkFits(f.wins, TotalRows(f.wins) - (h - 1))
    modifies f
    ensures f.Valid()
    ensures |f.wins| == old(|f.wins|) && f.cur == old(f.cur) && f.curBp == old(f.curBp) && f.points == old(f.points)
    ensures forall j :: 0 <= j < |f.wins| ==>
              f.wins[j] == Resize(old(f.wins[j]), ResizeDelta(old(f.wins), h, j))
                             .(fwidth := w, ewidth := w, topdelta := f.wins[j].topdelta)
    ensures forall j :: 0 <= j < |f.wins| && j != f.cur ==> f.wins[j].topdelta == old(f.wins[j].topdelta)
    ensures f.wins[f.cur].topdelta == RecenterTop(f.points[f.curBp].n, f.wins[f.cur].eheight)
    ensures old(TotalRows(f.wins)) < h - 1 || |f.wins| > 1 ==> TotalRows(f.wins) == h - 1
  {
    var sized := ResizedWindows(f.wins, w, h);
    f.wins := sized;
    f.Recenter(f.cur);
  }

  /** Both loops of resize_windows, on the window list alone: the widths, then the heights. */
  method ResizedWindows(ws: seq<Window>, w: nat, h: int) returns (r: seq<Window>)
    requires |ws| > 0 && ShrinkFits(ws, TotalRows(ws) - (h - 1))
    requires forall j :: 0 <= j < |ws| ==> ws[j].fheight >= 1 && ws[j].eheight == ws[j].fheight - 1
    ensures |r| == |ws|
    ensures forall j :: 0 <= j < |r| ==>
              r[j] == Resize(ws[j], ResizeDelta(ws, h, j)).(fwidth := w, ewidth := w) &&
              r[j].fheight >= 1 && r[j].eheight == r[j].fheight - 1
    ensures TotalRows(ws) < h - 1 || |ws| > 1 ==> TotalRows(r) == h - 1
  {
    var widened := SetWidths(ws, w);
    WidthsKeepResize(ws, widened, w, h);
    r := ResizeHeights(widened, h);
  }

  /** Setting the widths changes nothing in how the heights are resized. */
  lemma WidthsKeepResize(ws: seq<Window>, r: seq<Window>, w: nat, h: int)
    requires |r| == |ws| && TotalRows(r) == TotalRows(ws)
    requires forall j :: 0 <= j < |r| ==> r[j] == ws[j].(fwidth := w, ewidth := w)
    ensures ShrinkFits(ws, TotalRows(ws) - (h - 1)) ==> ShrinkFits(r, TotalRows(r) - (h - 1))
    ensures forall j :: 0 <= j < |r| ==> ResizeDelta(r, h, j) == ResizeDelta(ws, h, j)
  {
  }

  /** The height loops of resize_windows, after the rows missing are counted. */
  method ResizeHeights(ws: seq<Window>, h: int) returns (r: seq<Window>)
    requires |ws| > 0 && ShrinkFits(ws, TotalRows(ws) - (h - 1))
    requires forall j :: 0 <= j < |ws| ==> ws[j].fheight >= 1
    ensures |r| == |ws|
    ensures forall j :: 0 <= j < |r| ==> r[j] == Resize(ws[j], ResizeDelta(ws, h, j)) && r[j].fheight >= 1
    ensures TotalRows(ws) < h - 1 || |ws| > 1 ==> TotalRows(r) == h - 1
  {
    var hdelta := RowsMissing(ws, h);
    if hdelta > 0 {
      r := GrowHeights(ws, hdelta);
    } else {
      r := ShrinkHeights(ws, -hdelta);
    }
    forall j | 0 <= j < |ws|
      ensures r[j].fheight >= 1
    {
      ResizeKeepsRows(ws, h, j);
    }
  }

  /** The first loop of resize_windows: every window takes the terminal width. */
  method SetWidths(ws: seq<Window>, w: nat) returns (r: seq<Window>)
    ensures |r| == |ws|
    ensures forall j :: 0 <= j < |r| ==> r[j] == ws[j].(fwidth := w, ewidth := w)
    ensures TotalRows(r) == TotalRows(ws)
  {
    r := ws;
    for i := 0 to |ws|
      invariant |r| == |ws|
      invariant forall j :: 0 <= j < i ==> r[j] == ws[j].(fwidth := w, ewidth := w)
      invariant forall j :: i <= j < |ws| ==> r[j] == ws[j]
      invariant TotalRows(r) == TotalRows(ws)
    {
      var wp := r[i].(fwidth := w);
      wp := wp.(ewidth := wp.fwidth);
      TotalRowsUpdate(r, i, wp);
      r := r[i := wp];
    }
  }

  /** The second loop of resize_windows: how many rows the windows lack to fill h - 1 (negative when too tall). */
  method RowsMissing(ws: seq<Window>, h: int) returns (hdelta: int)
    ensures hdelta + TotalRows(ws) == h - 1
  {
    hdelta := h - 1;
    for i := 0 to |ws|
      invariant hdelta == h - 1 - TotalRows(ws[..i])
    {
      assert ws[..i + 1][..i] == ws[..i];
      hdelta := hdelta - ws[i].fheight;
    }
    assert ws[..|ws|] == ws;
  }

  /** No window is left without a status line: resizing keeps every window at least one row tall. */
  lemma ResizeKeepsRows(ws: seq<Window>, h: int, j: nat)
    requires j < |ws| && ShrinkFits(ws, TotalRows(ws) - (h - 1))
    requires forall i :: 0 <= i < |ws| ==> ws[i].fheight >= 1
    ensures ws[j].fheight + ResizeDelta(ws, h, j) >= 1
  {
    if h - 1 - TotalRows(ws) == 0 {
      DivModUnique(0, |ws|, 0, 0);
      assert ResizeDelta(ws, h, j) == 0;
    }
  }
}
