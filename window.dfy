/**
 * The window list of GNU Zile (src/window.c), with recenter (src/redisplay.c),
 * which the window commands call.
 *
 * The globals head_wp, cur_wp and cur_bp become one Frame object: the linked
 * list is the sequence `wins` in list order (head first), cur_wp is the index
 * `cur`, cur_bp is `curBp`.  Buffers are identified by number; each buffer's
 * point lives in `points`.  A saved-point marker is the Point it holds.
 */
module Windows {
  import opened Wrappers

  type BufferId = nat

  /** A buffer position: line n, offset o in the line. */
  datatype Point = Point(n: nat, o: nat)

  /** The fields of struct Window that this layer reads and writes. */
  datatype Window = Window(bp: BufferId, fwidth: nat, ewidth: nat, fheight: int, eheight: int,
                           topdelta: nat, lastpointn: nat, savedPt: Option<Point>)

  /** The rows the windows occupy, status lines included. */
  function TotalRows(ws: seq<Window>): int
  {
    if ws == [] then 0 else TotalRows(ws[..|ws| - 1]) + ws[|ws| - 1].fheight
  }

  lemma {:induction false} TotalRowsConcat(a: seq<Window>, b: seq<Window>)
    ensures TotalRows(a + b) == TotalRows(a) + TotalRows(b)
    decreases |b|
  {
    if b == [] {
      assert a + b == a;
    } else {
      assert (a + b)[..|a + b| - 1] == a + b[..|b| - 1];
      TotalRowsConcat(a, b[..|b| - 1]);
    }
  }

  /** Replacing one window changes the total by the change in its height. */
  lemma TotalRowsUpdate(ws: seq<Window>, i: nat, w: Window)
    requires i < |ws|
    ensures TotalRows(ws[i := w]) == TotalRows(ws) - ws[i].fheight + w.fheight
  {
    assert ws == ws[..i] + [ws[i]] + ws[i + 1..];
    assert ws[i := w] == ws[..i] + [w] + ws[i + 1..];
    TotalRowsConcat(ws[..i] + [ws[i]], ws[i + 1..]);
    TotalRowsConcat(ws[..i], [ws[i]]);
    TotalRowsConcat(ws[..i] + [w], ws[i + 1..]);
    TotalRowsConcat(ws[..i], [w]);
    assert TotalRows([ws[i]]) == ws[i].fheight by {
      assert [ws[i]][..0] == [];
    }
    assert TotalRows([w]) == w.fheight by {
      assert [w][..0] == [];
    }
  }

  /** Inserting a window at position k adds its rows to the total. */
  lemma TotalRowsInsert(ws: seq<Window>, k: nat, w: Window)
    requires k <= |ws|
    ensures TotalRows(ws[..k] + [w] + ws[k..]) == TotalRows(ws) + w.fheight
  {
    assert ws == ws[..k] + ws[k..];
    TotalRowsConcat(ws[..k], ws[k..]);
    TotalRowsConcat(ws[..k] + [w], ws[k..]);
    TotalRowsConcat(ws[..k], [w]);
    assert TotalRows([w]) == w.fheight by {
      assert [w][..0] == [];
    }
  }

  /** Removing the window at position k takes its rows off the total. */
  lemma TotalRowsRemove(ws: seq<Window>, k: nat)
    requires k < |ws|
    ensures TotalRows(ws[..k] + ws[k + 1..]) == TotalRows(ws) - ws[k].fheight
  {
    assert ws[..k] + [ws[k]] + ws[k + 1..] == ws;
    assert ws[k + 1..] == ws[k..][1..];
    TotalRowsInsert(ws[..k] + ws[k + 1..], k, ws[k]);
    assert (ws[..k] + ws[k + 1..])[..k] == ws[..k];
    assert (ws[..k] + ws[k + 1..])[k..] == ws[k + 1..];
  }

  /** The topdelta recenter picks: the point line, but no more than half the text rows. */
  function RecenterTop(line: nat, eheight: int): (top: nat)
    requires eheight >= 0
    ensures top <= line && top <= eheight / 2
    ensures top == line || top == eheight / 2
  {
    if line > eheight / 2 then eheight / 2 else line
  }

  /** A window that lost a row, recentred when its point row is no longer inside the text rows. */
  function Refit(w: Window, line: nat): (r: Window)
    requires w.eheight >= 0
    ensures r == w.(topdelta := r.topdelta)
    ensures w.topdelta < w.eheight ==> r == w
    ensures w.topdelta >= w.eheight ==> r.topdelta == RecenterTop(line, w.eheight)
    ensures w.topdelta >= w.eheight ==> r.topdelta <= line && r.topdelta <= w.eheight / 2
  {
    if w.topdelta >= w.eheight then w.(topdelta := RecenterTop(line, w.eheight)) else w
  }

  /** The window with its height changed by delta, status line kept. */
  function Resize(w: Window, delta: int): (r: Window)
    ensures r.fheight == w.fheight + delta && r.eheight == w.eheight + delta
    ensures r == w.(fheight := r.fheight, eheight := r.eheight)
  {
    w.(fheight := w.fheight + delta, eheight := w.eheight + delta)
  }

  /** The head, current window and current buffer of the editor. */
  class Frame {
    var wins: seq<Window>
    var cur: nat
    var curBp: BufferId
    var points: map<BufferId, Point>

    /**
     * The list is not empty, cur_wp is on it and shows cur_bp with no saved
     * point, every window has a status line under at least no text rows,
     * and every buffer shown has a point.
     */
    ghost predicate Valid()
      reads this
    {
      && 0 < |wins|
      && cur < |wins|
      && wins[cur].bp == curBp
      && wins[cur].savedPt.None?
      && (forall i :: 0 <= i < |wins| ==> wins[i].fheight >= 1 && wins[i].eheight == wins[i].fheight - 1)
      && (forall i :: 0 <= i < |wins| ==> wins[i].bp in points)
    }

    /** create_scratch_window: one window over the whole terminal but the minibuffer line. */
    constructor (w: nat, h: int, bp: BufferId, pts: map<BufferId, Point>)
      requires h >= 2 && bp in pts
      ensures Valid()
      ensures wins == [Window(bp, w, w, h - 1, h - 2, 0, 0, None)] && cur == 0
      ensures curBp == bp && points == pts
      ensures TotalRows(wins) == h - 1
    {
      wins := [Window(bp, w, w, h - 1, h - 2, 0, 0, None)];
      cur := 0;
      curBp := bp;
      points := pts;
      new;
      assert wins[..0] == [];
    }

    /**
     * window_pt: the point a window shows.  Only a window without a saved
     * point shows its buffer's own point, which is always the case for the
     * current window.
     */
    function WindowPt(i: nat): (p: Point)
      reads this
      requires Valid() && i < |wins|
      ensures wins[i].savedPt.None? ==> p == points[wins[i].bp]
      ensures wins[i].savedPt.Some? ==> i != cur && p == wins[i].savedPt.value
    {
      if i == cur then points[curBp]
      else match wins[i].savedPt
        case Some(m) => m
        case None => points[wins[i].bp]
    }

    /**
     * set_current_window: the old current window keeps its point in a saved
     * marker, the chosen window's saved point (if any) becomes its buffer's
     * point, and the chosen window becomes current with no saved point.
     * Both windows go on showing the point they showed before.
     */
    method SetCurrentWindow(j: nat)
      requires Valid() && j < |wins|
      modifies this
      ensures Valid()
      ensures cur == j && curBp == wins[j].bp
      ensures |wins| == old(|wins|)
      ensures wins[j] == old(wins[j]).(savedPt := None)
      ensures j != old(cur) ==> wins[old(cur)] == old(wins[cur]).(savedPt := Some(old(points[curBp])))
      ensures forall i :: 0 <= i < |wins| && i != j && i != old(cur) ==> wins[i] == old(wins[i])
      ensures points == old(points)[curBp := old(WindowPt(j))]
      ensures WindowPt(j) == old(WindowPt(j)) && WindowPt(old(cur)) == old(WindowPt(cur))
      ensures TotalRows(wins) == old(TotalRows(wins))
    {
      ghost var w0 := wins;
      var oldCur := cur;
      wins := wins[cur := wins[cur].(savedPt := Some(points[curBp]))];
      TotalRowsUpdate(w0, oldCur, wins[oldCur]);
      cur := j;
      curBp := wins[j].bp;
      var saved := wins[j].savedPt;
      if saved.Some? {
        points := points[curBp := saved.value];
        ghost var w1 := wins;
        wins := wins[j := wins[j].(savedPt := None)];
        TotalRowsUpdate(w1, j, wins[j]);
      }
    }

    /**
     * recenter: put the point line of window i in the middle of its text rows,
     * or as far down as it is from the top of the buffer when that is less.
     */
    method Recenter(i: nat)
      requires Valid() && i < |wins|
      modifies this
      ensures Valid()
      ensures wins == old(wins)[i := old(wins[i]).(topdelta := RecenterTop(old(WindowPt(i)).n, old(wins[i].eheight)))]
      ensures cur == old(cur) && curBp == old(curBp) && points == old(points)
      ensures wins[i].topdelta <= WindowPt(i).n && wins[i].topdelta <= wins[i].eheight / 2
      ensures TotalRows(wins) == old(TotalRows(wins))
    {
      var pt := WindowPt(i);
      var w := wins[i];
      var top := if pt.n > w.eheight / 2 then w.eheight / 2 else pt.n;
      wins := wins[i := w.(topdelta := top)];
      TotalRowsUpdate(old(wins), i, wins[i]);
    }

    /** Replace window i by w, a window of the same buffer and saved point with a status line. */
    method SetWindow(i: nat, w: Window)
      requires Valid() && i < |wins|
      requires w.fheight >= 1 && w.eheight == w.fheight - 1
      requires w.bp == wins[i].bp && w.savedPt == wins[i].savedPt
      modifies this
      ensures Valid()
      ensures wins == old(wins)[i := w]
      ensures cur == old(cur) && curBp == old(curBp) && points == old(points)
      ensures TotalRows(wins) == old(TotalRows(wins)) - old(wins[i].fheight) + w.fheight
    {
      TotalRowsUpdate(wins, i, w);
      wins := wins[i := w];
    }

    /**
     * split-window: a window of fewer than 4 rows is left alone; otherwise the
     * current window keeps the lower half of its rows and a new window with
     * the rest, showing the same buffer at the same point, goes right after
     * it.  Every other window keeps its place.
     */
    method SplitWindow() returns (ok: bool)
      requires Valid()
      modifies this
      ensures Valid()
      ensures ok <==> old(wins[cur].fheight) >= 4
      ensures cur == old(cur) && curBp == old(curBp) && points == old(points)
      ensures !ok ==> wins == old(wins)
      ensures ok ==>
                var h := old(wins[cur].fheight);
                var w := old(wins[cur]);
                && |wins| == old(|wins|) + 1
                && wins[..cur] == old(wins[..cur])
                && wins[cur] == Refit(w.(fheight := h / 2, eheight := h / 2 - 1), old(points[curBp].n))
                && wins[cur + 1] == Window(w.bp, w.fwidth, w.ewidth, h / 2 + h % 2, h / 2 + h % 2 - 1, 0, 0,
                                           Some(old(points[curBp])))
                && wins[cur + 2..] == old(wins[cur + 1..])
                && WindowPt(cur + 1) == WindowPt(cur)
      ensures TotalRows(wins) == old(TotalRows(wins))
    {
      var w := wins[cur];
      if w.fheight < 4 {
        return false;
      }
      var h := w.fheight;
      var newwp := Window(w.bp, w.fwidth, w.ewidth, h / 2 + h % 2, h / 2 + h % 2 - 1, 0, 0, None);
      SetWindow(cur, w.(fheight := h / 2, eheight := h / 2 - 1));
      if wins[cur].topdelta >= wins[cur].eheight {
        Recenter(cur);
      }
      newwp := newwp.(savedPt := Some(points[curBp]));
      InsertWindow(cur + 1, newwp);
      ok := true;
    }

    /** Put w into the list at position k, after the current window. */
    method InsertWindow(k: nat, w: Window)
      requires Valid() && cur < k <= |wins|
      requires w.fheight >= 1 && w.eheight == w.fheight - 1 && w.bp in points
      modifies this
      ensures Valid()
      ensures wins == old(wins[..k]) + [w] + old(wins[k..])
      ensures cur == old(cur) && curBp == old(curBp) && points == old(points)
      ensures TotalRows(wins) == old(TotalRows(wins)) + w.fheight
    {
      TotalRowsInsert(wins, k, w);
      wins := wins[..k] + [w] + wins[k..];
      assert wins[cur] == old(wins[cur]);
    }

    /** Take the window at position k, which is not the current one, out of the list. */
    method RemoveWindow(k: nat)
      requires Valid() && k < |wins| && k != cur
      modifies this
      ensures Valid()
      ensures wins == old(wins[..k]) + old(wins[k + 1..])
      ensures cur == (if k < old(cur) then old(cur) - 1 else old(cur))
      ensures curBp == old(curBp) && points == old(points)
      ensures TotalRows(wins) == old(TotalRows(wins)) - old(wins[k].fheight)
    {
      TotalRowsRemove(wins, k);
      wins := wins[..k] + wins[k + 1..];
      if k < cur {
        cur := cur - 1;
      }
      assert wins[cur] == old(wins[cur]);
    }

    /**
     * delete_window, called with the current window: it leaves the list; its
     * rows go to its predecessor, or to the new head when it was the head,
     * which becomes current.  The other windows keep their order.
     */
    method DeleteWindow(del: nat)
      requires Valid() && del == cur && |wins| > 1
      modifies this
      ensures Valid()
      ensures var r := if old(cur) == 0 then 1 else old(cur) - 1;
              var d := old(wins[cur]);
              var rw := old(wins[r]);
              && cur == (if old(cur) == 0 then 0 else old(cur) - 1)
              && curBp == rw.bp
              && wins == (old(wins[..cur]) + old(wins[cur + 1..]))[cur := Resize(rw, d.fheight).(savedPt := None)]
              && points == old(points)[rw.bp := old(WindowPt(r))]
      ensures TotalRows(wins) == old(TotalRows(wins))
    {
      var r := if cur == 0 then 1 else cur - 1;
      var d := wins[del];
      // wp->fheight += del_wp->fheight; wp->eheight += del_wp->eheight + 1
      var rw := wins[r].(fheight := wins[r].fheight + d.fheight, eheight := wins[r].eheight + d.eheight + 1);
      assert rw == Resize(wins[r], d.fheight);
      SetWindow(r, rw);
      SetCurrentWindow(r);
      RemoveWindow(del);
    }

    /** delete-window: refuses when the current window is the only one. */
    method DeleteWindowCommand() returns (ok: bool)
      requires Valid()
      modifies this
      ensures Valid()
      ensures ok <==> old(|wins|) > 1
      ensures !ok ==> wins == old(wins) && cur == old(cur) && curBp == old(curBp) && points == old(points)
      ensures ok ==> |wins| == old(|wins|) - 1
      ensures ok ==>
                var r := if old(cur) == 0 then 1 else old(cur) - 1;
                var d := old(wins[cur]);
                var rw := old(wins[r]);
                && cur == (if old(cur) == 0 then 0 else old(cur) - 1)
                && curBp == rw.bp
                && wins == (old(wins[..cur]) + old(wins[cur + 1..]))[cur := Resize(rw, d.fheight).(savedPt := None)]
                && points == old(points)[rw.bp := old(WindowPt(r))]
      ensures TotalRows(wins) == old(TotalRows(wins))
    {
      if |wins| == 1 {
        return false;
      }
      DeleteWindow(cur);
      ok := true;
    }

    /**
     * enlarge-window: the next window gives up a row when it has at least 3;
     * failing that the previous one, on the same terms; failing both nothing
     * happens.
     */
    static function EnlargeDonor(ws: seq<Window>, c: nat): (d: Option<nat>)
      requires c < |ws|
      ensures d.Some? ==> d.value < |ws| && (d.value == c + 1 || d.value + 1 == c) && ws[d.value].fheight >= 3
      ensures d.None? <==> |ws| == 1 || ((c + 1 == |ws| || ws[c + 1].fheight < 3) && (c == 0 || ws[c - 1].fheight < 3))
      ensures c + 1 < |ws| && ws[c + 1].fheight >= 3 ==> d == Some(c + 1)
    {
      if |ws| == 1 then None
      else if c + 1 < |ws| && ws[c + 1].fheight >= 3 then Some(c + 1)
      else if c > 0 && ws[c - 1].fheight >= 3 then Some(c - 1)
      else None
    }

    /** enlarge-window: one row moves from the donor to the current window. */
    method EnlargeWindow() returns (ok: bool)
      requires Valid()
      modifies this
      ensures Valid()
      ensures ok <==> EnlargeDonor(old(wins), old(cur)).Some?
      ensures cur == old(cur) && curBp == old(curBp) && points == old(points)
      ensures !ok ==> wins == old(wins)
      ensures ok ==>
                var d := EnlargeDonor(old(wins), old(cur)).value;
                wins == old(wins)[d := Refit(Resize(old(wins[d]), -1), old(WindowPt(d)).n)]
                                 [cur := Resize(old(wins[cur]), 1)]
      ensures TotalRows(wins) == old(TotalRows(wins))
    {
      var d := EnlargeDonor(wins, cur);
      if d.None? {
        return false;
      }
      var wp := d.value;
      SetWindow(wp, Resize(wins[wp], -1));
      if wins[wp].topdelta >= wins[wp].eheight {
        Recenter(wp);
      }
      SetWindow(cur, Resize(wins[cur], 1));
      ok := true;
    }

    /**
     * shrink-window: with more than one window and at least 3 rows, the
     * current window gives one row to the next window, or to the previous one
     * when it is the last.
     */
    method ShrinkWindow() returns (ok: bool)
      requires Valid()
      modifies this
      ensures Valid()
      ensures ok <==> old(|wins|) > 1 && old(wins[cur].fheight) >= 3
      ensures cur == old(cur) && curBp == old(curBp) && points == old(points)
      ensures !ok ==> wins == old(wins)
      ensures ok ==>
                var r := if old(cur) + 1 < old(|wins|) then old(cur) + 1 else old(cur) - 1;
                && (r == cur + 1 || r + 1 == cur)
                && wins == old(wins)[r := Resize(old(wins[r]), 1)]
                                    [cur := Refit(Resize(old(wins[cur]), -1), old(points[curBp]).n)]
      ensures TotalRows(wins) == old(TotalRows(wins))
    {
      if |wins| == 1 || wins[cur].fheight < 3 {
        return false;
      }
      var r := if cur + 1 < |wins| then cur + 1 else cur - 1;
      SetWindow(r, Resize(wins[r], 1));
      SetWindow(cur, Resize(wins[cur], -1));
      if wins[cur].topdelta >= wins[cur].eheight {
        Recenter(cur);
      }
      ok := true;
    }

    /**
     * popup_window: the window to show a popup in, never the current one.
     * A sole window is split first (None when it is too small to split);
     * otherwise the window after the current one, or the head.
     */
    method PopupWindow() returns (r: Option<nat>)
      requires Valid()
      modifies this
      ensures Valid()
      ensures r.Some? ==> r.value < |wins| && r.value != cur
      ensures old(|wins|) == 1 ==> r == (if old(wins[0].fheight) >= 4 then Some(1) else None)
      ensures old(|wins|) > 1 ==> r == Some(if old(cur) + 1 < old(|wins|) then old(cur) + 1 else 0)
      ensures old(|wins|) > 1 ==> wins == old(wins)
      ensures old(|wins|) == 1 && old(wins[0].fheight) < 4 ==> wins == old(wins)
      ensures old(|wins|) == 1 && old(wins[0].fheight) >= 4 ==>
                var h := old(wins[0].fheight);
                var w := old(wins[0]);
                && wins[0] == Refit(w.(fheight := h / 2, eheight := h / 2 - 1), old(points[curBp].n))
                && wins[1] == Window(w.bp, w.fwidth, w.ewidth, h / 2 + h % 2, h / 2 + h % 2 - 1, 0, 0,
                                     Some(old(points[curBp])))
      ensures |wins| == old(|wins|) + (if old(|wins|) == 1 && old(wins[0].fheight) >= 4 then 1 else 0)
      ensures cur == old(cur) && curBp == old(curBp) && points == old(points)
      ensures TotalRows(wins) == old(TotalRows(wins))
    {
      if |wins| == 1 {
        var ok := SplitWindow();
        return if ok then Some(cur + 1) else None;
      }
      if cur + 1 < |wins| {
        return Some(cur + 1);
      }
      return Some(0);
    }

    /**
     * delete-other-windows: the current window alone fills the terminal of
     * width w and height h, less the minibuffer line.
     */
    method DeleteOtherWindows(w: nat, h: int)
      requires Valid() && h >= 2
      modifies this
      ensures Valid()
      ensures wins == [old(wins[cur]).(fwidth := w, ewidth := w, fheight := h - 1, eheight := h - 2)]
      ensures cur == 0 && curBp == old(curBp) && points == old(points)
      ensures TotalRows(wins) == h - 1
    {
      var wp := wins[cur];
      wp := wp.(fwidth := w, ewidth := w);
      wp := wp.(fheight := h - 1);
      wp := wp.(eheight := wp.fheight - 1);
      wins := [wp];
      cur := 0;
      assert wins[..0] == [];
    }

    /** other-window: select the next window, cyclically. */
    method OtherWindow()
      requires Valid()
      modifies this
      ensures Valid()
      ensures |wins| == old(|wins|)
      ensures cur == (if old(cur) + 1 < |wins| then old(cur) + 1 else 0)
      ensures curBp == wins[cur].bp
      ensures wins[cur] == old(wins)[cur].(savedPt := None)
      ensures cur != old(cur) ==> wins[old(cur)] == old(wins[cur]).(savedPt := Some(old(points[curBp])))
      ensures forall i :: 0 <= i < |wins| && i != cur && i != old(cur) ==> wins[i] == old(wins[i])
      ensures var j := cur; points == old(points)[curBp := old(WindowPt(j))]
      ensures var j := cur; WindowPt(j) == old(WindowPt(j))
      ensures WindowPt(old(cur)) == old(WindowPt(cur))
      ensures TotalRows(wins) == old(TotalRows(wins))
    {
      SetCurrentWindow(if cur + 1 < |wins| then cur + 1 else 0);
    }

    /** find_window: the first window whose buffer has that name. */
    method FindWindow(name: string, bufferName: BufferId -> string) returns (r: Option<nat>)
      requires Valid()
      ensures r.Some? ==> r.value < |wins| && bufferName(wins[r.value].bp) == name
      ensures r.Some? ==> forall i :: 0 <= i < r.value ==> bufferName(wins[i].bp) != name
      ensures r.None? ==> forall i :: 0 <= i < |wins| ==> bufferName(wins[i].bp) != name
    {
      var i := 0;
      while i < |wins|
        invariant i <= |wins|
        invariant forall k :: 0 <= k < i ==> bufferName(wins[k].bp) != name
      {
        if bufferName(wins[i].bp) == name {
          return Some(i);
        }
        i := i + 1;
      }
      return None;
    }
  }
}
