/**
 * recount_widths on values: the phases that fit the columns into the target
 * width, each a function of the widths before it. The running total `total`
 * and the counter `extremes` are kept as the C code keeps them; the lemmas
 * show that the total always equals the widths plus one separator between
 * neighbouring columns.
 */
module Negotiate {
  import opened Wrappers
  import opened Mbs
  import opened Model
  import opened WidthCalc

  /** What negotiation reads and never changes: the columns' attributes, the
      measured row widths and header width of each column, the target width
      (tb->termwidth) and the maximize flag. */
  datatype Env = Env(cols: seq<ColAttrs>, rows: seq<seq<nat>>, hdrs: seq<Option<Width>>, tw: nat, maxout: bool)

  predicate Fits(env: Env, ws: seq<ColWidths>)
  {
    |env.cols| == |ws| && |env.rows| == |ws| && |env.hdrs| == |ws|
  }

  /** The widths, the running output width and the extreme-column counter. */
  datatype State = State(ws: seq<ColWidths>, total: int, extremes: int)

  /** count_column_width on column `i`. */
  function Recounted(env: Env, ws: seq<ColWidths>, i: nat): ColWidths
    requires Fits(env, ws) && i < |ws|
  {
    CountWidth(env.cols[i], ws[i], env.rows[i], env.hdrs[i])
  }

  function SumWidths(ws: seq<ColWidths>): nat
  {
    if |ws| == 0 then 0 else SumWidths(ws[..|ws| - 1]) + ws[|ws| - 1].width
  }

  /** The output width of a row: the column widths and one separator between
      neighbouring columns. */
  function Total(ws: seq<ColWidths>): nat
  {
    if |ws| == 0 then 0 else SumWidths(ws) + |ws| - 1
  }

  function NumExtreme(ws: seq<ColWidths>): nat
  {
    if |ws| == 0 then 0 else NumExtreme(ws[..|ws| - 1]) + (if ws[|ws| - 1].isExtreme then 1 else 0)
  }

  /** Only the working width of some columns differs. */
  predicate SameButWidth(ws: seq<ColWidths>, ws': seq<ColWidths>)
  {
    |ws'| == |ws| &&
    forall j :: 0 <= j < |ws| ==> ws'[j] == ws[j].(width := ws'[j].width)
  }

  lemma {:induction false} SumWidthsUpdate(ws: seq<ColWidths>, i: nat, c: ColWidths)
    requires i < |ws|
    ensures SumWidths(ws[i := c]) == SumWidths(ws) - ws[i].width + c.width
    decreases |ws|
  {
    var ws' := ws[i := c];
    var n := |ws|;
    if i < n - 1 {
      assert ws'[..n - 1] == ws[..n - 1][i := c];
      SumWidthsUpdate(ws[..n - 1], i, c);
    } else {
      assert ws'[..n - 1] == ws[..n - 1];
    }
  }

  /** Setting one column's width changes the total by the difference. */
  lemma TotalUpdate(ws: seq<ColWidths>, i: nat, c: ColWidths)
    requires i < |ws|
    ensures Total(ws[i := c]) == Total(ws) - ws[i].width + c.width
  {
    SumWidthsUpdate(ws, i, c);
  }

  // ---------------------------------------------------------------------
  // Phase 1: count every column once.

  /** The first pass: every column counted once. */
  function Initial(env: Env, ws: seq<ColWidths>): (r: seq<ColWidths>)
    requires Fits(env, ws)
    ensures |r| == |ws|
  {
    seq(|ws|, i requires 0 <= i < |ws| => Recounted(env, ws, i))
  }

  /** The first pass done on columns 0..i-1 only. */
  function InitialUpTo(env: Env, ws: seq<ColWidths>, i: nat): (r: seq<ColWidths>)
    requires Fits(env, ws)
    ensures |r| == |ws|
  {
    seq(|ws|, j requires 0 <= j < |ws| => if j < i then Recounted(env, ws, j) else ws[j])
  }

  /** Counting column i extends the first pass by one column. */
  lemma InitialUpToStep(env: Env, ws: seq<ColWidths>, i: nat)
    requires Fits(env, ws) && i < |ws|
    ensures var cur := InitialUpTo(env, ws, i);
            && Fits(env, cur)
            && cur[i := Recounted(env, cur, i)] == InitialUpTo(env, ws, i + 1)
  {
  }

  lemma InitialUpToAll(env: Env, ws: seq<ColWidths>)
    requires Fits(env, ws)
    ensures InitialUpTo(env, ws, |ws|) == Initial(env, ws) && InitialUpTo(env, ws, 0) == ws
  {
  }

  /** The running sums of the first pass. */
  lemma SumsSnoc(ws: seq<ColWidths>, i: nat)
    requires i < |ws|
    ensures SumWidths(ws[..i + 1]) == SumWidths(ws[..i]) + ws[i].width
    ensures NumExtreme(ws[..i + 1]) == NumExtreme(ws[..i]) + (if ws[i].isExtreme then 1 else 0)
  {
    assert ws[..i + 1][..i] == ws[..i];
  }

  // ---------------------------------------------------------------------
  // Phase 2: recount the extreme columns, columns i.. still to do.

  function Reduce(env: Env, s: State, i: nat): (r: State)
    requires Fits(env, s.ws)
    ensures |r.ws| == |s.ws|
    decreases |s.ws| - i
  {
    if i >= |s.ws| then s
    else if !s.ws[i].isExtreme then Reduce(env, s, i + 1)
    else Reduce(env, ReduceStep(env, s, i), i + 1)
  }

  /** Recounting extreme column i: the total drops by what it lost, or the
      counter by one when it lost nothing. */
  function ReduceStep(env: Env, s: State, i: nat): (r: State)
    requires Fits(env, s.ws) && i < |s.ws|
    ensures r.ws == s.ws[i := Recounted(env, s.ws, i)]
  {
    var nw := Recounted(env, s.ws, i);
    var org := s.ws[i].width;
    if org > nw.width then State(s.ws[i := nw], s.total - (org - nw.width), s.extremes)
    else State(s.ws[i := nw], s.total, s.extremes - 1)
  }

  /** The extreme pass recounts exactly the extreme columns and leaves the
      others alone. */
  lemma {:induction false} ReduceShape(env: Env, s: State, i: nat)
    requires Fits(env, s.ws)
    ensures var r := Reduce(env, s, i);
            && (forall j :: 0 <= j < i && j < |s.ws| ==> r.ws[j] == s.ws[j])
            && (forall j :: i <= j < |s.ws| ==>
                  r.ws[j] == (if s.ws[j].isExtreme then Recounted(env, s.ws, j) else s.ws[j]))
    decreases |s.ws| - i
  {
    if i < |s.ws| {
      if !s.ws[i].isExtreme {
        ReduceShape(env, s, i + 1);
      } else {
        var s' := ReduceStep(env, s, i);
        ReduceShape(env, s', i + 1);
        assert forall j :: i < j < |s.ws| ==> Recounted(env, s'.ws, j) == Recounted(env, s.ws, j);
      }
    }
  }

  /** One step of the extreme pass on a column holding a first-pass result
      keeps the total equal to the widths plus separators. */
  lemma ReduceStepTotal(env: Env, s: State, i: nat, prev: seq<ColWidths>)
    requires Fits(env, s.ws) && |prev| == |s.ws| && i < |s.ws|
    requires s.ws[i] == Recounted(env, prev, i)
    requires s.total == Total(s.ws)
    ensures ReduceStep(env, s, i).total == Total(ReduceStep(env, s, i).ws)
  {
    var nw := Recounted(env, s.ws, i);
    SecondPassNoWider(env.cols[i], prev[i], env.rows[i], env.hdrs[i]);
    TotalUpdate(s.ws, i, nw);
  }

  /** The extreme pass lowers the total by exactly what the recounted columns
      shrank: when the columns still to do hold first-pass results, the total
      stays the widths plus separators. */
  lemma {:induction false} ReduceTotal(env: Env, s: State, i: nat, prev: seq<ColWidths>)
    requires Fits(env, s.ws) && |prev| == |s.ws|
    requires forall j :: i <= j < |s.ws| ==> s.ws[j] == Recounted(env, prev, j)
    requires s.total == Total(s.ws)
    ensures Reduce(env, s, i).total == Total(Reduce(env, s, i).ws)
    decreases |s.ws| - i
  {
    if i < |s.ws| {
      if !s.ws[i].isExtreme {
        ReduceTotal(env, s, i + 1, prev);
      } else {
        ReduceStepTotal(env, s, i, prev);
        var s' := ReduceStep(env, s, i);
        assert forall j :: i < j < |s.ws| ==> s'.ws[j] == s.ws[j];
        ReduceTotal(env, s', i + 1, prev);
      }
    }
  }

  // ---------------------------------------------------------------------
  // Phase 3: grow into the slack.

  /** Growing the extreme columns one after another, columns i.. still to do:
      each grows towards its widest row by at most the slack, and the pass
      stops when the total reaches the target. A column already wider than
      its widest row stays as it is (see GrowStepAsWritten). */
  function GrowExtremes(env: Env, s: State, i: nat): (r: State)
    requires Fits(env, s.ws) && s.total <= env.tw
    ensures |r.ws| == |s.ws| && r.total <= env.tw
    decreases |s.ws| - i
  {
    if i >= |s.ws| then s
    else if !s.ws[i].isExtreme then GrowExtremes(env, s, i + 1)
    else
      var s' := GrowStep(env, s, i);
      if s'.total == env.tw then s' else GrowExtremes(env, s', i + 1)
  }

  /** Growing extreme column i by the slack, or only up to its widest row
      when the slack would take it past that. */
  function GrowStep(env: Env, s: State, i: nat): (r: State)
    requires i < |s.ws| && s.total <= env.tw
    ensures |r.ws| == |s.ws| && s.total <= r.total <= env.tw
  {
    var c := s.ws[i];
    var add: nat := env.tw - s.total;
    var add': nat := if add > 0 && c.width + add > c.widthMax
                     then (if c.widthMax > c.width then c.widthMax - c.width else 0)
                     else add;
    State(s.ws[i := c.(width := c.width + add')], s.total + add', s.extremes)
  }

  /** One step of the growth of an extreme column as written: `add` is
      `width_max - width` when the column would overshoot its widest row.
      In size_t that difference wraps when the floor or the hint made the
      column wider than its widest row, and adding the wrapped value lands
      the column on width_max (SizeWrapLandsOnMax): the column shrinks. */
  function GrowStepAsWritten(c: ColWidths, total: int, tw: nat): (r: (ColWidths, int))
    requires total <= tw
    ensures r.0 == c.(width := r.0.width) && r.1 <= tw
    ensures r.1 - total == r.0.width - c.width
  {
    var add: int := tw - total;
    if add > 0 && c.width + add > c.widthMax then (c.(width := c.widthMax), total + (c.widthMax - c.width))
    else (c.(width := c.width + add), total + add)
  }

  /** size_t arithmetic: adding `(wm - w) mod 2^64` to `w` gives `wm`, also
      when `wm < w`. */
  lemma SizeWrapLandsOnMax(w: nat, wm: nat)
    requires w <= SIZE_MAX && wm <= SIZE_MAX
    ensures (w + (wm - w) % (SIZE_MAX + 1)) % (SIZE_MAX + 1) == wm
  {
    var M := SIZE_MAX + 1;
    if wm < w {
      assert (wm - w) % M == wm - w + M;
      assert (w + (wm - w + M)) % M == (wm + M) % M == wm;
    } else {
      assert (wm - w) % M == wm - w;
    }
  }

  /** As written, an extreme column whose header is wider than all its rows
      is shrunk below its header width by the growth step: the header mode
      of that column is then truncated or overflows. */
  lemma GrowStepAsWrittenShrinksBelowMin()
    ensures var c := ColWidths(4, 4, 1, 0, true);
            && GrowStepAsWritten(c, 10, 20).0.width == 1
            && GrowStepAsWritten(c, 10, 20).0.width < c.widthMin
            && GrowExtremes(Env([ColAttrs(Cell(Some("NAME"), None), None, 0.0, false, false, false, true, false)],
                                [[0, 0, 1]], [Some(Cells(4))], 20, false),
                            State([c], 10, 1), 0).ws[0].width == 4
  {
  }

  /** The extreme pass at lines 431-445 as written, on the as-written step. */
  function GrowExtremesAsWritten(env: Env, ws: seq<ColWidths>, total: int, i: nat): (r: (seq<ColWidths>, int))
    requires Fits(env, ws) && total <= env.tw
    ensures |r.0| == |ws| && r.1 <= env.tw
    decreases |ws| - i
  {
    if i >= |ws| then (ws, total)
    else if !ws[i].isExtreme then GrowExtremesAsWritten(env, ws, total, i + 1)
    else
      var g := GrowStepAsWritten(ws[i], total, env.tw);
      if g.1 == env.tw then (ws[i := g.0], g.1)
      else GrowExtremesAsWritten(env, ws[i := g.0], g.1, i + 1)
  }

  /** The as-written extreme pass and the corrected one agree whenever no
      extreme column still to be visited is wider than its widest row; they
      differ only on the columns GrowStepAsWrittenShrinksBelowMin exhibits. */
  lemma {:induction false} GrowAsWrittenAgrees(env: Env, s: State, i: nat)
    requires Fits(env, s.ws) && s.total <= env.tw
    requires forall j :: i <= j < |s.ws| && s.ws[j].isExtreme ==> s.ws[j].width <= s.ws[j].widthMax
    ensures var g := GrowExtremes(env, s, i);
            GrowExtremesAsWritten(env, s.ws, s.total, i) == (g.ws, g.total)
    decreases |s.ws| - i
  {
    if i >= |s.ws| {
    } else if !s.ws[i].isExtreme {
      GrowAsWrittenAgrees(env, s, i + 1);
    } else {
      var g := GrowStepAsWritten(s.ws[i], s.total, env.tw);
      var s' := GrowStep(env, s, i);
      assert s'.ws == s.ws[i := g.0] && s'.total == g.1;
      if s'.total != env.tw {
        GrowAsWrittenAgrees(env, s', i + 1);
      }
    }
  }

  /** The same discrepancy on a table phase 1 really produces, on its first
      print: a no-extremes column headed "NAME" with rows of widths 0, 0 and
      1 is counted to width 4 with width_max 1 and average 0, so it is
      extreme; beside it a column "X" of width 1, on an 80-cell terminal.
      The extreme pass as written leaves the first column at width 1, below
      its header; the corrected one keeps 4. */
  lemma GrowAsWrittenFromInitial()
    ensures var env := Env([ColAttrs(Cell(Some("NAME"), None), None, 0.0, false, false, false, true, false),
                            ColAttrs(Cell(Some("X"), None), None, 0.0, false, false, false, false, false)],
                           [[0, 0, 1], [1, 1, 1]], [Some(Cells(4)), Some(Cells(1))], 80, false);
            var ws0 := [ColWidths(0, 0, 0, 0, false), ColWidths(0, 0, 0, 0, false)];
            var ws1 := Initial(env, ws0);
            && ws1 == [ColWidths(4, 4, 1, 0, true), ColWidths(1, 1, 1, 0, false)]
            && Total(ws1) == 6
            && GrowExtremesAsWritten(env, ws1, Total(ws1), 0).0[0].width == 1
            && GrowExtremes(env, State(ws1, Total(ws1), NumExtreme(ws1)), 0).ws[0].width == 4
  {
    var env := Env([ColAttrs(Cell(Some("NAME"), None), None, 0.0, false, false, false, true, false),
                    ColAttrs(Cell(Some("X"), None), None, 0.0, false, false, false, false, false)],
                   [[0, 0, 1], [1, 1, 1]], [Some(Cells(4)), Some(Cells(1))], 80, false);
    var ws0 := [ColWidths(0, 0, 0, 0, false), ColWidths(0, 0, 0, 0, false)];
    var m0 := Mode(false, 0, true);
    assert Scan(m0, Acc(0, 0, 0, 0), [0, 0, 1], 3) == Acc(1, 1, 1, 3);
    assert Recounted(env, ws0, 0) == ColWidths(4, 4, 1, 0, true);
    var m1 := Mode(false, 0, false);
    assert Scan(m1, Acc(0, 0, 0, 0), [1, 1, 1], 3) == Acc(1, 1, 0, 0);
    assert Recounted(env, ws0, 1) == ColWidths(1, 1, 1, 0, false);
    var ws1 := Initial(env, ws0);
    assert ws1 == [ColWidths(4, 4, 1, 0, true), ColWidths(1, 1, 1, 0, false)];
    assert Total(ws1) == 6 by {
      assert ws1[..1] == [ws1[0]];
      assert SumWidths(ws1[..1]) == 4;
    }
  }

  /** From `a` to `b` only widths change, and only grow; the columns before
      `i` and those that are not extreme keep theirs, and a column that grows
      stays within its widest row. */
  ghost predicate GrownExtremes(a: seq<ColWidths>, b: seq<ColWidths>, i: nat)
  {
    && SameButWidth(a, b)
    && (forall j :: 0 <= j < |a| ==> a[j].width <= b[j].width)
    && (forall j :: 0 <= j < |a| && (j < i || !a[j].isExtreme) ==> b[j] == a[j])
    && (forall j :: 0 <= j < |a| && a[j].width < b[j].width ==> b[j].width <= a[j].widthMax)
  }

  lemma GrownExtremesRefl(a: seq<ColWidths>, i: nat)
    ensures GrownExtremes(a, a, i)
  {
  }

  lemma GrownExtremesSkip(a: seq<ColWidths>, b: seq<ColWidths>, i: nat)
    requires i < |a| && !a[i].isExtreme && GrownExtremes(a, b, i + 1)
    ensures GrownExtremes(a, b, i)
  {
  }

  /** Growing extreme column `i` within its widest row, then the columns
      after it. */
  lemma GrownExtremesStep(a: seq<ColWidths>, w: nat, b: seq<ColWidths>, i: nat)
    requires i < |a| && a[i].isExtreme && a[i].width <= w
    requires a[i].width < w ==> w <= a[i].widthMax
    requires GrownExtremes(a[i := a[i].(width := w)], b, i + 1)
    ensures GrownExtremes(a, b, i)
  {
    var m := a[i := a[i].(width := w)];
    forall j | 0 <= j < |a|
      ensures b[j] == a[j].(width := b[j].width) && a[j].width <= b[j].width
      ensures (j < i || !a[j].isExtreme) ==> b[j] == a[j]
      ensures a[j].width < b[j].width ==> b[j].width <= a[j].widthMax
    {
      if j != i {
        assert m[j] == a[j];
      } else {
        assert m[i] == a[i].(width := w) && b[i] == m[i];
      }
    }
  }

  /** The extreme columns only grow, each stays within the larger of its
      width and its widest row, the others do not change, and the total
      stays the widths plus separators. */
  lemma {:induction false} GrowExtremesMeaning(env: Env, s: State, i: nat)
    requires Fits(env, s.ws) && s.total <= env.tw && s.total == Total(s.ws)
    ensures var r := GrowExtremes(env, s, i);
            && r.total == Total(r.ws)
            && r.total <= env.tw
            && GrownExtremes(s.ws, r.ws, i)
    decreases |s.ws| - i
  {
    if i >= |s.ws| {
      GrownExtremesRefl(s.ws, i);
    } else if !s.ws[i].isExtreme {
      GrowExtremesMeaning(env, s, i + 1);
      GrownExtremesSkip(s.ws, GrowExtremes(env, s, i + 1).ws, i);
    } else {
      var s' := GrowStep(env, s, i);
      var w := s'.ws[i].width;
      TotalUpdate(s.ws, i, s.ws[i].(width := w));
      if s'.total != env.tw {
        GrowExtremesMeaning(env, s', i + 1);
      } else {
        GrownExtremesRefl(s'.ws, i + 1);
      }
      GrownExtremesStep(s.ws, w, GrowExtremes(env, s, i).ws, i);
    }
  }

  /** The maximize loop, flattened: with the next column to grow at `j`, add
      one to it, stop when the total reaches the target, else go on with the
      next column, wrapping to the first. */
  function RoundRobin(ws: seq<ColWidths>, total: int, tw: nat, j: nat): (r: (seq<ColWidths>, int))
    requires j < |ws| && total <= tw
    ensures |r.0| == |ws| && r.1 == tw
    decreases tw - total
  {
    if total == tw then (ws, total)
    else
      var ws' := ws[j := ws[j].(width := ws[j].width + 1)];
      if total + 1 == tw then (ws', total + 1)
      else RoundRobin(ws', total + 1, tw, if j + 1 == |ws| then 0 else j + 1)
  }

  /** Every column `c` has grown by `k`, and by one more when c < j. */
  ghost predicate GrownBy(base: seq<ColWidths>, ws: seq<ColWidths>, k: nat, j: nat)
  {
    |ws| == |base| &&
    forall c :: 0 <= c < |ws| ==>
      ws[c] == base[c].(width := base[c].width + k + (if c < j then 1 else 0))
  }

  /** The maximize loop shares the slack out evenly: each column gains `k`,
      and the first `rest` columns one more, where k * n + rest is the slack
      it started from. */
  lemma {:induction false} RoundRobinShares(base: seq<ColWidths>, ws: seq<ColWidths>, t0: int, total: int, tw: nat, k: nat, j: nat)
      returns (k': nat, rest: nat)
    requires j < |ws| && total <= tw && GrownBy(base, ws, k, j)
    requires total == t0 + k * |ws| + j
    ensures rest < |ws| && tw - t0 == k' * |ws| + rest
    ensures GrownBy(base, RoundRobin(ws, total, tw, j).0, k', rest)
    decreases tw - total
  {
    var n := |ws|;
    if total == tw {
      k', rest := k, j;
    } else {
      var ws' := ws[j := ws[j].(width := ws[j].width + 1)];
      if j + 1 == n {
        assert GrownBy(base, ws', k + 1, 0);
        assert (k + 1) * n == k * n + n;
        if total + 1 == tw {
          k', rest := k + 1, 0;
        } else {
          k', rest := RoundRobinShares(base, ws', t0, total + 1, tw, k + 1, 0);
        }
      } else {
        assert GrownBy(base, ws', k, j + 1);
        if total + 1 == tw {
          k', rest := k, j + 1;
        } else {
          k', rest := RoundRobinShares(base, ws', t0, total + 1, tw, k, j + 1);
        }
      }
    }
  }

  /** Enlarging the last column: it takes all the slack unless it is right
      aligned. */
  function GrowLast(env: Env, s: State): (r: State)
    requires Fits(env, s.ws) && |s.ws| > 0 && s.total <= env.tw
  {
    var last := |s.ws| - 1;
    if !env.cols[last].right && env.tw - s.total > 0 then
      State(s.ws[last := s.ws[last].(width := s.ws[last].width + (env.tw - s.total))], env.tw, s.extremes)
    else s
  }

  /** The last column gains exactly the slack when it is not right aligned,
      and no other column changes. */
  lemma GrowLastMeaning(env: Env, s: State)
    requires Fits(env, s.ws) && |s.ws| > 0 && s.total <= env.tw && s.total == Total(s.ws)
    ensures var r := GrowLast(env, s);
            var last := |s.ws| - 1;
            && SameButWidth(s.ws, r.ws)
            && r.total == Total(r.ws)
            && (forall j :: 0 <= j < last ==> r.ws[j] == s.ws[j])
            && r.ws[last].width == (if env.cols[last].right then s.ws[last].width else s.ws[last].width + (env.tw - s.total))
            && (!env.cols[last].right ==> r.total == env.tw)
  {
    var last := |s.ws| - 1;
    TotalUpdate(s.ws, last, s.ws[last].(width := s.ws[last].width + (env.tw - s.total)));
  }

  /** The growth phase: the extreme columns first, then either every column
      round-robin (maximize) or the last column. */
  function Expand(env: Env, s: State): (r: State)
    requires Fits(env, s.ws) && |s.ws| > 0 && s.total < env.tw
  {
    var g := if s.extremes != 0 then GrowExtremes(env, s, 0) else s;
    if g.total < env.tw && env.maxout then
      var rr := RoundRobin(g.ws, g.total, env.tw, 0);
      State(rr.0, rr.1, g.extremes)
    else if g.total < env.tw then GrowLast(env, g)
    else g
  }

  // ---------------------------------------------------------------------
  // Phase 4: shrink to the target, one cell per column and sweep.

  /** A column the shrinking never touches: a tree column, or one with an
      absolute width hint that may not be truncated. */
  predicate Protected(a: ColAttrs)
  {
    a.tree || (a.hint > 1.0 && !a.trunc)
  }

  /** Whether a sweep skips the column outright. */
  predicate Skipped(a: ColAttrs, c: ColWidths, truncOnly: bool)
  {
    Protected(a) || (truncOnly && !a.trunc) || c.width == c.widthMin
  }

  /** Whether a sweep that reaches the column while the total is too wide
      takes one cell from it: a relative hint below the share it asks for,
      or an absolute hint once truncatable columns alone did not suffice. */
  predicate Shrinks(env: Env, a: ColAttrs, c: ColWidths, total: int, truncOnly: bool)
  {
    !Skipped(a, c, truncOnly) && c.width > 0 && total > 0 &&
    ((a.hint < 1.0 && (c.width as real) > a.hint * (env.tw as real)) ||
     (a.hint > 1.0 && !truncOnly))
  }

  /** One sweep over columns i.., stopping as soon as the total fits. */
  function SweepFrom(env: Env, ws: seq<ColWidths>, total: int, truncOnly: bool, i: nat): (r: (seq<ColWidths>, int))
    requires Fits(env, ws)
    ensures |r.0| == |ws| && r.1 <= total && (r.1 == total ==> r.0 == ws)
    decreases |ws| - i
  {
    if i >= |ws| || total <= env.tw then (ws, total)
    else if Shrinks(env, env.cols[i], ws[i], total, truncOnly) then
      SweepFrom(env, ws[i := ws[i].(width := ws[i].width - 1)], total - 1, truncOnly, i + 1)
    else SweepFrom(env, ws, total, truncOnly, i + 1)
  }

  /** The shrinking loop: sweeps over the truncatable columns until one makes
      no progress, then sweeps over all shrinkable columns until one makes
      no progress, stopping as soon as the total fits. */
  function Shrink(env: Env, ws: seq<ColWidths>, total: int, truncOnly: bool): (r: (seq<ColWidths>, int))
    requires Fits(env, ws)
    ensures |r.0| == |ws| && r.1 <= total
    decreases (if total > 0 then total else 0), truncOnly
  {
    if total <= env.tw then (ws, total)
    else
      var sw := SweepFrom(env, ws, total, truncOnly, 0);
      if sw.1 < total then Shrink(env, sw.0, sw.1, truncOnly)
      else if truncOnly then Shrink(env, ws, total, false)
      else (ws, total)
  }

  /** What one sweep does to the widths: each column loses at most one cell,
      only a column the sweep may shrink loses one and only down to its floor,
      the total keeps counting the widths plus separators, and it never drops
      below the target. */
  lemma {:induction false} SweepMeaning(env: Env, ws: seq<ColWidths>, total: int, truncOnly: bool, i: nat)
    requires Fits(env, ws) && total == Total(ws)
    ensures var r := SweepFrom(env, ws, total, truncOnly, i);
            && r.1 == Total(r.0)
            && (total >= env.tw ==> r.1 >= env.tw)
            && Swept(env, ws, r.0, truncOnly, i)
    decreases |ws| - i
  {
    var r := SweepFrom(env, ws, total, truncOnly, i);
    if i < |ws| && total > env.tw {
      if Shrinks(env, env.cols[i], ws[i], total, truncOnly) {
        var c := ws[i].(width := ws[i].width - 1);
        TotalUpdate(ws, i, c);
        SweepMeaning(env, ws[i := c], total - 1, truncOnly, i + 1);
        SweptStep(env, ws, r.0, truncOnly, i);
      } else {
        SweepMeaning(env, ws, total, truncOnly, i + 1);
      }
    }
  }

  /** From `a` to `b` only widths change, each by at most one cell, and only
      in columns from `i` on that the sweep does not skip. */
  ghost predicate Swept(env: Env, a: seq<ColWidths>, b: seq<ColWidths>, truncOnly: bool, i: nat)
    requires Fits(env, a)
  {
    && SameButWidth(a, b)
    && (forall j :: 0 <= j < |a| ==> b[j].width == a[j].width || b[j].width + 1 == a[j].width)
    && (forall j :: 0 <= j < |a| && b[j] != a[j] ==> i <= j && !Skipped(env.cols[j], a[j], truncOnly))
  }

  /** Taking one cell from a column the sweep does not skip, then sweeping
      the columns after it. */
  lemma SweptStep(env: Env, a: seq<ColWidths>, b: seq<ColWidths>, truncOnly: bool, i: nat)
    requires Fits(env, a) && i < |a| && a[i].width > 0 && !Skipped(env.cols[i], a[i], truncOnly)
    requires Swept(env, a[i := a[i].(width := a[i].width - 1)], b, truncOnly, i + 1)
    ensures Swept(env, a, b, truncOnly, i)
  {
    var m := a[i := a[i].(width := a[i].width - 1)];
    forall j | 0 <= j < |a|
      ensures b[j] == a[j].(width := b[j].width)
      ensures b[j].width == a[j].width || b[j].width + 1 == a[j].width
      ensures b[j] != a[j] ==> i <= j && !Skipped(env.cols[j], a[j], truncOnly)
    {
      if j != i {
        assert m[j] == a[j];
      } else {
        assert m[i] == a[i].(width := a[i].width - 1) && b[i] == m[i];
      }
    }
  }

  /** Every column that is not strict-width is at least its header width. */
  predicate FloorHeld(env: Env, ws: seq<ColWidths>)
    requires Fits(env, ws)
  {
    forall j :: 0 <= j < |ws| && !env.cols[j].strictWidth ==> ws[j].widthMin <= ws[j].width
  }

  /** What the shrinking does: widths only go down, protected columns and
      (in the first pass) non-truncatable ones keep theirs, no column drops
      below its floor, the total stays consistent and never below the target,
      and when it still does not fit, a sweep over all columns makes no
      progress. */
  lemma {:induction false} ShrinkMeaning(env: Env, ws: seq<ColWidths>, total: int, truncOnly: bool)
    requires Fits(env, ws) && total == Total(ws)
    ensures var r := Shrink(env, ws, total, truncOnly);
            && SameButWidth(ws, r.0)
            && r.1 == Total(r.0)
            && (forall j :: 0 <= j < |ws| && ws[j].widthMin <= ws[j].width ==> r.0[j].widthMin <= r.0[j].width)
            && (total >= env.tw ==> r.1 >= env.tw)
            && (forall j :: 0 <= j < |ws| ==> r.0[j].width <= ws[j].width)
            && (forall j :: 0 <= j < |ws| && Protected(env.cols[j]) ==> r.0[j] == ws[j])
            && (r.1 > env.tw ==> SweepFrom(env, r.0, r.1, false, 0).1 == r.1)
    decreases (if total > 0 then total else 0), truncOnly
  {
    if total > env.tw {
      var sw := SweepFrom(env, ws, total, truncOnly, 0);
      SweepMeaning(env, ws, total, truncOnly, 0);
      if sw.1 < total {
        ShrinkMeaning(env, sw.0, sw.1, truncOnly);
      } else if truncOnly {
        ShrinkMeaning(env, ws, total, false);
      }
    }
  }

  /** The first pass of the shrinking only takes from truncatable columns. */
  lemma {:induction false} SweepTruncOnly(env: Env, ws: seq<ColWidths>, total: int, i: nat)
    requires Fits(env, ws) && total == Total(ws)
    ensures var r := SweepFrom(env, ws, total, true, i);
            forall j :: 0 <= j < |ws| && !env.cols[j].trunc ==> r.0[j] == ws[j]
  {
    SweepMeaning(env, ws, total, true, i);
  }

  // ---------------------------------------------------------------------
  // The phases together.

  /** The maximize loop keeps the total consistent and only widens. */
  lemma {:induction false} RoundRobinMeaning(ws: seq<ColWidths>, total: int, tw: nat, j: nat)
    requires j < |ws| && total <= tw && total == Total(ws)
    ensures var r := RoundRobin(ws, total, tw, j);
            && SameButWidth(ws, r.0)
            && r.1 == Total(r.0)
            && (forall c :: 0 <= c < |ws| ==> ws[c].width <= r.0[c].width)
    decreases tw - total
  {
    if total < tw {
      var c := ws[j].(width := ws[j].width + 1);
      TotalUpdate(ws, j, c);
      if total + 1 < tw {
        RoundRobinMeaning(ws[j := c], total + 1, tw, if j + 1 == |ws| then 0 else j + 1);
      }
    }
  }

  /** The growth phase widens only, keeps the total consistent, and with
      maximize set it fills the target exactly. */
  lemma ExpandMeaning(env: Env, s: State)
    requires Fits(env, s.ws) && |s.ws| > 0 && s.total < env.tw && s.total == Total(s.ws)
    ensures var r := Expand(env, s);
            && SameButWidth(s.ws, r.ws)
            && r.total == Total(r.ws)
            && r.total <= env.tw
            && (forall j :: 0 <= j < |s.ws| ==> s.ws[j].width <= r.ws[j].width)
            && (env.maxout ==> r.total == env.tw)
  {
    var g := if s.extremes != 0 then GrowExtremes(env, s, 0) else s;
    if s.extremes != 0 {
      GrowExtremesMeaning(env, s, 0);
    }
    if g.total < env.tw && env.maxout {
      RoundRobinMeaning(g.ws, g.total, env.tw, 0);
    } else if g.total < env.tw {
      GrowLastMeaning(env, g);
    }
  }

  /** recount_widths: count every column; off a terminal that is all.
      On a terminal, recount the extreme columns when the table is too wide,
      grow into any slack, then shrink while it is too wide. A table with no
      columns on a terminal of non-zero width is excluded: the C code then
      loops forever (maximize) or reads a column that does not exist. */
  function NegotiatedWidths(env: Env, ws0: seq<ColWidths>, isTerm: bool): (r: seq<ColWidths>)
    requires Fits(env, ws0) && (|ws0| > 0 || !isTerm || env.tw == 0)
    ensures |r| == |ws0|
  {
    var ws1 := Initial(env, ws0);
    if !isTerm then ws1
    else
      var s1 := State(ws1, Total(ws1), NumExtreme(ws1));
      var s2 := if s1.total > env.tw && s1.extremes != 0 then Reduce(env, s1, 0) else s1;
      ReduceTotal(env, s1, 0, ws0);
      var s3 := if s2.total < env.tw then Expand(env, s2) else s2;
      Shrink(env, s3.ws, s3.total, true).0
  }

  /** The floor of every non-strict column holds after counting and after the
      extreme pass. */
  lemma CountedAtLeastMin(env: Env, ws0: seq<ColWidths>, s1: State)
    requires Fits(env, ws0) && s1.ws == Initial(env, ws0)
    ensures FloorHeld(env, s1.ws) && FloorHeld(env, Reduce(env, s1, 0).ws)
  {
    ReduceShape(env, s1, 0);
  }

  /** The widths negotiation hands to the shrinking: the total is
      consistent, with maximize it has reached the target, and the floor of
      non-strict columns holds. */
  lemma BeforeShrink(env: Env, ws0: seq<ColWidths>)
    requires Fits(env, ws0) && |ws0| > 0
    ensures var ws1 := Initial(env, ws0);
            var s1 := State(ws1, Total(ws1), NumExtreme(ws1));
            var s2 := if s1.total > env.tw && s1.extremes != 0 then Reduce(env, s1, 0) else s1;
            var s3 := if s2.total < env.tw then Expand(env, s2) else s2;
            && |s3.ws| == |ws0|
            && s3.total == Total(s3.ws)
            && (env.maxout ==> s3.total >= env.tw)
            && FloorHeld(env, s3.ws)
  {
    var ws1 := Initial(env, ws0);
    var s1 := State(ws1, Total(ws1), NumExtreme(ws1));
    var s2 := if s1.total > env.tw && s1.extremes != 0 then Reduce(env, s1, 0) else s1;
    ReduceTotal(env, s1, 0, ws0);
    if s2.total < env.tw {
      ExpandMeaning(env, s2);
    }
    CountedAtLeastMin(env, ws0, s1);
  }

  /** What negotiation guarantees on a terminal: the table fits the target
      unless a sweep over every column can take nothing more; with maximize
      it fills the target or still overflows; no non-strict column ends below
      its header width. */
  lemma NegotiateMeaning(env: Env, ws0: seq<ColWidths>)
    requires Fits(env, ws0) && |ws0| > 0
    ensures var r := NegotiatedWidths(env, ws0, true);
            && (Total(r) <= env.tw || SweepFrom(env, r, Total(r), false, 0).1 == Total(r))
            && (env.maxout ==> Total(r) >= env.tw)
            && FloorHeld(env, r)
  {
    var ws1 := Initial(env, ws0);
    var s1 := State(ws1, Total(ws1), NumExtreme(ws1));
    var s2 := if s1.total > env.tw && s1.extremes != 0 then Reduce(env, s1, 0) else s1;
    var s3 := if s2.total < env.tw then Expand(env, s2) else s2;
    BeforeShrink(env, ws0);
    ShrinkMeaning(env, s3.ws, s3.total, true);
  }
}
