/**
 * The table as the printer sees it, with the state it updates in place: the
 * columns' width fields, the terminal fields of the table and the output
 * stream. Each method follows its C function loop by loop and is proved to
 * leave the state that the value-level model describes.
 */
module Table {
  import opened Wrappers
  import opened Mbs
  import opened Model
  import opened TreeArt
  import opened Traversal
  import opened WidthCalc
  import opened Negotiate
  import opened Render
  import opened Setup

  /** A column: its fixed attributes and position, and the width fields the
      printer recomputes. */
  class Column {
    const seqnum: nat
    const attrs: ColAttrs
    var width: nat
    var widthMin: nat
    var widthMax: nat
    var widthAvg: nat
    var isExtreme: bool

    function Widths(): ColWidths
      reads this
    {
      ColWidths(width, widthMin, widthMax, widthAvg, isExtreme)
    }

    constructor (seqnum: nat, attrs: ColAttrs)
      ensures this.seqnum == seqnum && this.attrs == attrs
      ensures Widths() == ColWidths(0, 0, 0, 0, false)
    {
      this.seqnum := seqnum;
      this.attrs := attrs;
      width, widthMin, widthMax, widthAvg, isExtreme := 0, 0, 0, 0, false;
    }
  }

  /** The output stream: everything written so far. */
  class Stream {
    var tokens: seq<Token>

    constructor ()
      ensures tokens == []
    {
      tokens := [];
    }
  }

  class Table {
    const columns: seq<Column>
    const lines: seq<Line>
    const flags: Flags
    const termreduce: nat
    const mbs: Routines
    const out: Stream
    var symbols: Option<Symbols>
    var isTerm: bool
    var termwidth: nat

    /** The columns are distinct objects in position order, and every index
        in the line arena is in range. */
    predicate Valid()
    {
      (forall i, j :: 0 <= i < j < |columns| ==> columns[i] != columns[j]) &&
      (forall i :: 0 <= i < |columns| ==> columns[i].seqnum == i) &&
      WellFormed(lines)
    }

    constructor (columns: seq<Column>, lines: seq<Line>, flags: Flags, termreduce: nat, mbs: Routines, out: Stream)
      requires forall i, j :: 0 <= i < j < |columns| ==> columns[i] != columns[j]
      requires forall i :: 0 <= i < |columns| ==> columns[i].seqnum == i
      requires WellFormed(lines)
      ensures Valid()
      ensures this.columns == columns && this.lines == lines && this.flags == flags
      ensures this.termreduce == termreduce && this.mbs == mbs && this.out == out
      ensures symbols.None? && !isTerm && termwidth == 0
    {
      this.columns := columns;
      this.lines := lines;
      this.flags := flags;
      this.termreduce := termreduce;
      this.mbs := mbs;
      this.out := out;
      symbols := None;
      isTerm := false;
      termwidth := 0;
    }

    /** Every column's width fields, in order. */
    function Snapshot(): (r: seq<ColWidths>)
      reads columns
      ensures |r| == |columns|
    {
      seq(|columns|, i reads columns requires 0 <= i < |columns| => columns[i].Widths())
    }

    function Attrs(): (r: seq<ColAttrs>)
      ensures |r| == |columns|
    {
      seq(|columns|, i requires 0 <= i < |columns| => columns[i].attrs)
    }

    /** What negotiation reads: the attributes, each column's row widths as
        line_get_data and mbs_safe_width give them with the symbols `sym`,
        the header widths, the target width `tw` and the maximize flag. */
    function EnvOf(bufsz: nat, sym: Symbols, tw: nat): (env: Env)
      requires Valid() && bufsz >= 1
      ensures |env.cols| == |columns| && |env.rows| == |columns| && |env.hdrs| == |columns|
    {
      Env(Attrs(),
          seq(|columns|, i requires 0 <= i < |columns| => RowWidths(lines, columns[i].attrs, i, bufsz, sym, mbs)),
          seq(|columns|, i requires 0 <= i < |columns| => HeaderWidth(columns[i].attrs, mbs)),
          tw, flags.maxout)
    }

    /** `env` holds this table's measurements for the buffer size and the
        symbols, whatever its target width. */
    predicate Measures(env: Env, bufsz: nat, sym: Symbols)
      requires Valid() && bufsz >= 1
    {
      env == EnvOf(bufsz, sym, env.tw)
    }

    /** What the phases after the counting read of the environment: the
        attributes, the target width and the maximize flag are the table's. */
    predicate Targets(env: Env, tw: nat)
    {
      env.cols == Attrs() && |env.rows| == |columns| && |env.hdrs| == |columns| &&
      env.tw == tw && env.maxout == flags.maxout
    }

    /** Sets the working width of column i. */
    method SetWidth(i: nat, w: nat)
      requires Valid() && i < |columns|
      modifies columns[i]
      ensures Snapshot() == old(Snapshot())[i := old(Snapshot())[i].(width := w)]
    {
      columns[i].width := w;
      assert forall j :: 0 <= j < |columns| && j != i ==> columns[j] != columns[i];
    }

    /** The measuring loop of count_column_width: every line's width in the
        column raises the maximum, and unless it is an outlier raises the
        working width and, for a no-extremes column, the sum and count. */
    method ScanLines(cl: Column, bufsz: nat, sym: Symbols) returns (sum: nat, count: nat)
      requires Valid() && bufsz >= 1
      modifies cl
      ensures Acc(cl.width, cl.widthMax, sum, count) ==
              Scan(Mode(old(cl.isExtreme), old(cl.widthAvg), cl.attrs.noExtremes), Acc(0, old(cl.widthMax), 0, 0),
                   RowWidths(lines, cl.attrs, cl.seqnum, bufsz, sym, mbs), |lines|)
      ensures cl.isExtreme == old(cl.isExtreme) && cl.widthAvg == old(cl.widthAvg) && cl.widthMin == old(cl.widthMin)
    {
      ghost var rows := RowWidths(lines, cl.attrs, cl.seqnum, bufsz, sym, mbs);
      ghost var mode := Mode(cl.isExtreme, cl.widthAvg, cl.attrs.noExtremes);
      ghost var init := Acc(0, cl.widthMax, 0, 0);
      count, sum := 0, 0;
      cl.width := 0;
      var k := 0;
      while k < |lines|
        invariant 0 <= k <= |lines|
        invariant Acc(cl.width, cl.widthMax, sum, count) == Scan(mode, init, rows, k)
        invariant cl.isExtreme == old(cl.isExtreme) && cl.widthAvg == old(cl.widthAvg) && cl.widthMin == old(cl.widthMin)
      {
        var data := LineData(lines, k, cl.attrs, cl.seqnum, bufsz, sym);
        var len := if data.None? then 0 else CellsOrZero(mbs.safeWidth(data.value));
        assert len == rows[k];
        sum, count := ScanRow(cl, len, sum, count);
        k := k + 1;
      }
    }

    /** One iteration of the measuring loop, on a row of width `len`. */
    method ScanRow(cl: Column, len: nat, sum0: nat, count0: nat) returns (sum: nat, count: nat)
      modifies cl
      ensures Acc(cl.width, cl.widthMax, sum, count) ==
              Step(Mode(cl.isExtreme, cl.widthAvg, cl.attrs.noExtremes), Acc(old(cl.width), old(cl.widthMax), sum0, count0), len)
      ensures cl.isExtreme == old(cl.isExtreme) && cl.widthAvg == old(cl.widthAvg) && cl.widthMin == old(cl.widthMin)
    {
      sum, count := sum0, count0;
      if len > cl.widthMax {
        cl.widthMax := len;
      }
      if !(cl.isExtreme && len > cl.widthAvg * 2) {
        if cl.attrs.noExtremes {
          sum := sum + len;
          count := count + 1;
        }
        if len > cl.width {
          cl.width := len;
        }
      }
    }

    /** count_column_width: rescans every line of the column and updates its
        width fields as CountWidth describes. */
    method CountColumnWidth(cl: Column, bufsz: nat, sym: Symbols)
      requires Valid() && bufsz >= 1
      modifies cl
      ensures cl.Widths() == CountWidth(cl.attrs, old(cl.Widths()), RowWidths(lines, cl.attrs, cl.seqnum, bufsz, sym, mbs), HeaderWidth(cl.attrs, mbs))
    {
      ghost var st := cl.Widths();
      ghost var rows := RowWidths(lines, cl.attrs, cl.seqnum, bufsz, sym, mbs);
      assert |rows| == |lines|;
      var sum, count := ScanLines(cl, bufsz, sym);
      ghost var sc := cl.Widths();
      assert sc == st.(width := cl.width, widthMax := cl.widthMax);
      SettleColumn(cl, sum, count);
    }

    /** The rest of count_column_width: the average and the extreme flag the
        first time, the header width and the floor. */
    method SettleColumn(cl: Column, sum: nat, count: nat)
      modifies cl
      ensures cl.Widths() == Settle(cl.attrs, old(cl.Widths()), sum, count, HeaderWidth(cl.attrs, mbs))
    {
      ghost var r := Settle(cl.attrs, cl.Widths(), sum, count, HeaderWidth(cl.attrs, mbs));
      if count > 0 && cl.widthAvg == 0 {
        cl.widthAvg := sum / count;
        if cl.widthMax > cl.widthAvg * 2 {
          cl.isExtreme := true;
        }
      }
      assert cl.widthAvg == r.widthAvg && cl.isExtreme == r.isExtreme;
      if cl.attrs.header.data.Some? {
        var hw := mbs.safeWidth(cl.attrs.header.data.value);
        cl.widthMin := if hw.Broken? then SIZE_MAX else hw.n;
      }
      assert cl.widthMin == r.widthMin;
      if cl.width < cl.widthMin && !cl.attrs.strictWidth {
        cl.width := cl.widthMin;
      } else if cl.attrs.hint >= 1.0 && cl.width < cl.attrs.hint.Floor && cl.widthMin < cl.attrs.hint.Floor {
        cl.width := cl.attrs.hint.Floor;
      }
    }

    /** count_column_width on column i, seen from the whole table. */
    method CountColumn(i: nat, bufsz: nat, sym: Symbols, ghost env: Env)
      requires Valid() && i < |columns| && bufsz >= 1 && Measures(env, bufsz, sym)
      modifies columns[i]
      ensures Snapshot() == old(Snapshot())[i := Recounted(env, old(Snapshot()), i)]
    {
      CountColumnWidth(columns[i], bufsz, sym);
      assert forall j :: 0 <= j < |columns| && j != i ==> columns[j] != columns[i];
    }
  
    // -------------------------------------------------------------------
    // recount_widths, phase by phase.

    /** The first phase: every column counted once, with the output width
        and the extreme columns summed on the way. */
    method CountAll(bufsz: nat, sym: Symbols, ghost env: Env) returns (width: int, extremes: int)
      requires Valid() && bufsz >= 1 && Measures(env, bufsz, sym)
      modifies columns
      ensures Snapshot() == Initial(env, old(Snapshot()))
      ensures width == Total(Snapshot()) && extremes == NumExtreme(Snapshot())
    {
      ghost var s0 := Snapshot();
      InitialUpToAll(env, s0);
      width, extremes := 0, 0;
      var i := 0;
      while i < |columns|
        invariant 0 <= i <= |columns|
        invariant Snapshot() == InitialUpTo(env, s0, i)
        invariant width + (if 0 < i == |columns| then 1 else 0) == SumWidths(Snapshot()[..i]) + i
        invariant extremes == NumExtreme(Snapshot()[..i])
      {
        ghost var before := Snapshot();
        InitialUpToStep(env, s0, i);
        CountColumn(i, bufsz, sym, env);
        ghost var after := Snapshot();
        assert after[..i] == before[..i];
        SumsSnoc(after, i);
        assert after[i] == columns[i].Widths();
        width := width + columns[i].width + (if i == |columns| - 1 then 0 else 1);
        extremes := extremes + (if columns[i].isExtreme then 1 else 0);
        i := i + 1;
      }
      assert Snapshot()[..i] == Snapshot();
    }

    /** The extreme pass: every extreme column recounted; the total drops by
        what it lost, or the counter by one when it lost nothing. */
    method ReduceExtremes(bufsz: nat, sym: Symbols, width0: int, extremes0: int, ghost env: Env) returns (width: int, extremes: int)
      requires Valid() && bufsz >= 1 && Measures(env, bufsz, sym)
      modifies columns
      ensures State(Snapshot(), width, extremes) == Reduce(env, State(old(Snapshot()), width0, extremes0), 0)
    {
      ghost var goal := Reduce(env, State(Snapshot(), width0, extremes0), 0);
      width, extremes := width0, extremes0;
      var i := 0;
      while i < |columns|
        invariant 0 <= i <= |columns|
        invariant Reduce(env, State(Snapshot(), width, extremes), i) == goal
      {
        ghost var before := Snapshot();
        assert before[i] == columns[i].Widths();
        if columns[i].isExtreme {
          width, extremes := ReduceColumn(i, bufsz, sym, width, extremes, env);
        }
        i := i + 1;
      }
    }

    /** Recounting extreme column i. */
    method ReduceColumn(i: nat, bufsz: nat, sym: Symbols, width0: int, extremes0: int, ghost env: Env) returns (width: int, extremes: int)
      requires Valid() && i < |columns| && bufsz >= 1 && Measures(env, bufsz, sym)
      modifies columns[i]
      ensures State(Snapshot(), width, extremes) == ReduceStep(env, State(old(Snapshot()), width0, extremes0), i)
    {
      width, extremes := width0, extremes0;
      var org := columns[i].width;
      CountColumn(i, bufsz, sym, env);
      assert Snapshot()[i] == columns[i].Widths();
      if org > columns[i].width {
        width := width - (org - columns[i].width);
      } else {
        extremes := extremes - 1;
      }
    }

    /** Growing the extreme columns into the slack, stopping when the total
        reaches the target. */
    method GrowExtremeColumns(tw: nat, width0: int, extremes: int, ghost env: Env) returns (width: int)
      requires Valid() && width0 <= tw && Targets(env, tw)
      modifies columns
      ensures State(Snapshot(), width, extremes) == GrowExtremes(env, State(old(Snapshot()), width0, extremes), 0)
    {
      ghost var goal := GrowExtremes(env, State(Snapshot(), width0, extremes), 0);
      width := width0;
      var i := 0;
      while i < |columns|
        invariant 0 <= i <= |columns| && width <= tw
        invariant GrowExtremes(env, State(Snapshot(), width, extremes), i) == goal
      {
        if columns[i].isExtreme {
          width := GrowColumn(tw, i, width, extremes, env);
          if width == tw {
            break;
          }
        }
        i := i + 1;
      }
    }

    /** Growing extreme column i into the slack. */
    method GrowColumn(tw: nat, i: nat, width0: int, extremes: int, ghost env: Env) returns (width: int)
      requires Valid() && i < |columns| && width0 <= tw && Targets(env, tw)
      modifies columns[i]
      ensures State(Snapshot(), width, extremes) == GrowStep(env, State(old(Snapshot()), width0, extremes), i)
    {
      var cl := columns[i];
      assert Snapshot()[i] == cl.Widths();
      var add: nat := tw - width0;
      if add > 0 && cl.width + add > cl.widthMax {
        add := if cl.widthMax > cl.width then cl.widthMax - cl.width else 0;
      }
      SetWidth(i, cl.width + add);
      width := width0 + add;
    }

    /** The maximize loop: one cell at a time to every column in turn, until
        the total reaches the target. */
    method Maximize(tw: nat, width0: int) returns (width: int)
      requires Valid() && |columns| > 0 && width0 <= tw
      modifies columns
      ensures (Snapshot(), width) == RoundRobin(old(Snapshot()), width0, tw, 0)
    {
      ghost var goal := RoundRobin(Snapshot(), width0, tw, 0);
      width := width0;
      while width < tw
        invariant width <= tw
        invariant RoundRobin(Snapshot(), width, tw, 0) == goal
        decreases tw - width
      {
        width := MaximizeRound(tw, width);
      }
    }

    /** One round of the maximize loop: a cell to each column from the first,
        stopping at the target. */
    method MaximizeRound(tw: nat, width0: int) returns (width: int)
      requires Valid() && |columns| > 0 && width0 < tw
      modifies columns
      ensures width0 < width <= tw
      ensures RoundRobin(Snapshot(), width, tw, 0) == RoundRobin(old(Snapshot()), width0, tw, 0)
    {
      ghost var goal := RoundRobin(Snapshot(), width0, tw, 0);
      width := width0;
      var i := 0;
      while i < |columns|
        invariant 0 <= i <= |columns| && width < tw
        invariant width == width0 + i
        invariant RoundRobin(Snapshot(), width, tw, if i == |columns| then 0 else i) == goal
      {
        SetWidth(i, columns[i].width + 1);
        width := width + 1;
        if width == tw {
          break;
        }
        i := i + 1;
      }
    }

    /** Enlarging the last column by the slack unless it is right aligned. */
    method GrowLastColumn(tw: nat, width0: int, extremes: int, ghost env: Env) returns (width: int)
      requires Valid() && |columns| > 0 && width0 <= tw && Targets(env, tw)
      modifies columns
      ensures State(Snapshot(), width, extremes) == GrowLast(env, State(old(Snapshot()), width0, extremes))
    {
      width := width0;
      var cl := columns[|columns| - 1];
      if !cl.attrs.right && tw - width > 0 {
        SetWidth(|columns| - 1, cl.width + (tw - width));
        width := tw;
      }
    }

    /** One step of a sweep on column i: take one cell from it when the
        sweep may shrink it. */
    method ShrinkStep(tw: nat, i: nat, width0: int, truncOnly: bool, ghost env: Env) returns (width: int)
      requires Valid() && i < |columns| && Targets(env, tw)
      modifies columns[i]
      ensures (Snapshot(), width) ==
              if Shrinks(env, columns[i].attrs, old(Snapshot())[i], width0, truncOnly)
              then (old(Snapshot())[i := old(Snapshot())[i].(width := old(Snapshot())[i].width - 1)], width0 - 1)
              else (old(Snapshot()), width0)
    {
      width := width0;
      var cl := columns[i];
      var a := cl.attrs;
      assert Snapshot()[i] == cl.Widths();
      if (a.hint > 1.0 && !a.trunc) || a.tree || (truncOnly && !a.trunc) || cl.width == cl.widthMin {
        return;
      }
      if a.hint < 1.0 && cl.width > 0 && width > 0 && (cl.width as real) > a.hint * (tw as real) {
        SetWidth(i, cl.width - 1);
        width := width - 1;
      }
      if a.hint > 1.0 && cl.width > 0 && width > 0 && !truncOnly {
        SetWidth(i, cl.width - 1);
        width := width - 1;
      }
    }

    /** One sweep over the columns, stopping as soon as the total fits. */
    method Sweep(tw: nat, width0: int, truncOnly: bool, ghost env: Env) returns (width: int)
      requires Valid() && Targets(env, tw)
      modifies columns
      ensures (Snapshot(), width) == SweepFrom(env, old(Snapshot()), width0, truncOnly, 0)
    {
      ghost var goal := SweepFrom(env, Snapshot(), width0, truncOnly, 0);
      width := width0;
      var i := 0;
      while i < |columns|
        invariant 0 <= i <= |columns|
        invariant SweepFrom(env, Snapshot(), width, truncOnly, i) == goal
      {
        if width <= tw {
          break;
        }
        width := ShrinkStep(tw, i, width, truncOnly, env);
        i := i + 1;
      }
    }

    /** The shrinking loop: sweeps taking one cell from each shrinkable
        column until the total fits, first over truncatable columns only,
        then over all, ending after a sweep that takes nothing. */
    method ShrinkColumns(tw: nat, width0: int, ghost env: Env) returns (width: int)
      requires Valid() && Targets(env, tw)
      modifies columns
      ensures (Snapshot(), width) == Shrink(env, old(Snapshot()), width0, true)
    {
      ghost var goal := Shrink(env, Snapshot(), width0, true);
      width := width0;
      var truncOnly := true;
      while width > tw
        invariant Shrink(env, Snapshot(), width, truncOnly) == goal
        decreases (if width > 0 then width else 0), truncOnly
      {
        var org := width;
        width := Sweep(tw, width, truncOnly, env);
        if org == width {
          if truncOnly {
            truncOnly := false;
          } else {
            break;
          }
        }
      }
    }
  
    /** The growth phase: the extreme columns, then either every column
        round-robin (maximize) or the last column. */
    method GrowColumns(tw: nat, width0: int, extremes: int, ghost env: Env) returns (width: int)
      requires Valid() && |columns| > 0 && width0 < tw && Targets(env, tw)
      modifies columns
      ensures State(Snapshot(), width, extremes) == Expand(env, State(old(Snapshot()), width0, extremes))
    {
      width := width0;
      if extremes != 0 {
        width := GrowExtremeColumns(tw, width, extremes, env);
      }
      if width < tw && flags.maxout {
        width := Maximize(tw, width);
      } else if width < tw {
        width := GrowLastColumn(tw, width, extremes, env);
      }
    }

    /** recount_widths: count every column; on a terminal (`term`), fit the
        columns into the target width `tw`. */
    method RecountWidths(bufsz: nat, sym: Symbols, tw: nat, term: bool, ghost env: Env)
      requires Valid() && bufsz >= 1 && env == EnvOf(bufsz, sym, tw)
      requires |columns| > 0 || !term || tw == 0
      modifies columns
      ensures Snapshot() == NegotiatedWidths(env, old(Snapshot()), term)
    {
      ghost var s0 := Snapshot();
      var width, extremes := CountAll(bufsz, sym, env);
      if !term {
        return;
      }
      ghost var s1 := State(Snapshot(), width, extremes);
      ReduceTotal(env, s1, 0, s0);
      if width > tw && extremes != 0 {
        width, extremes := ReduceExtremes(bufsz, sym, width, extremes, env);
      }
      ghost var s2 := State(Snapshot(), width, extremes);
      assert s2 == if s1.total > env.tw && s1.extremes != 0 then Reduce(env, s1, 0) else s1;
      assert width == Total(Snapshot());
      if width < tw {
        width := GrowColumns(tw, width, extremes, env);
      }
      ghost var s3 := State(Snapshot(), width, extremes);
      assert s3 == if s2.total < env.tw then Expand(env, s2) else s2;
      width := ShrinkColumns(tw, width, env);
    }
  
    // -------------------------------------------------------------------
    // Printing.

    /** What print_data reads of the table. */
    function CtxOf(): (ctx: Ctx)
      reads columns
      ensures ValidCtx(ctx) && ctx.attrs == Attrs() && ctx.flags == flags && ctx.mbs == mbs
      ensures forall c :: 0 <= c < |columns| ==> ctx.widths[c] == columns[c].width
    {
      Ctx(flags, Attrs(), seq(|columns|, i reads columns requires 0 <= i < |columns| => columns[i].width), mbs)
    }

    method Put(t: Token)
      modifies out
      ensures out.tokens == old(out.tokens) + [t]
    {
      out.tokens := out.tokens + [t];
    }

    /** The value, in the colour when there is one. */
    method PutColored(color: Option<string>, t: Token)
      modifies out
      ensures out.tokens == old(out.tokens) + Colored(color, [t])
    {
      if color.Some? {
        Put(ColorOn(color.value));
      }
      Put(t);
      if color.Some? {
        Put(ColorOff);
      }
    }

    /** The padding loop: a blank for every cell from `len` up to `width`. */
    method PutPads(len: nat, width: nat)
      modifies out
      ensures out.tokens == old(out.tokens) + Pads(if len < width then width - len else 0)
    {
      var k := len;
      while k < width
        invariant len <= k && (len < width ==> k <= width) && (width <= len ==> k == len)
        invariant out.tokens == old(out.tokens) + Pads(k - len)
      {
        Put(Pad);
        assert Pads(k + 1 - len) == Pads(k - len) + [Pad];
        k := k + 1;
      }
    }

    /** The overflow re-indent: a newline, then a filler for every column up
        to and including column c. */
    method PutReindent(c: nat, ghost ctx: Ctx)
      requires c < |columns| && ctx == CtxOf()
      modifies out
      ensures out.tokens == old(out.tokens) + [Newline] + Fillers(ctx.widths[..c + 1])
    {
      Put(Newline);
      var j := 0;
      while j <= c
        invariant 0 <= j <= c + 1 && ctx == CtxOf()
        invariant out.tokens == old(out.tokens) + [Newline] + Fillers(ctx.widths[..j])
      {
        Put(Filler(columns[j].width));
        assert ctx.widths[..j + 1] == ctx.widths[..j] + [columns[j].width];
        j := j + 1;
      }
    }

    /** The measuring part of print_data: the encoded value, the width it is
        filled to, and the truncation. */
    method FitValue(c: nat, data: string) returns (text: Option<string>, len: nat, width: nat, cells: nat)
      requires c < |columns|
      ensures Fitted(text, len, width, cells) == Fit(CtxOf(), c, Encode(mbs, data))
    {
      var cl := columns[c];
      text, len := None, 0;
      match mbs.safeEncode(data) {
        case EncodeFailed =>
        case Encoded(t, w) =>
          if w.Cells? && w.n != 0 {
            text, len := Some(t), w.n;
          }
      }
      assert Measured(text, len) == Encode(mbs, data);
      width := cl.width;
      if c == |columns| - 1 && len < width && !flags.maxout {
        width := len;
      }
      cells := len;
      if len > width && cl.attrs.trunc {
        match mbs.truncate(text.value, width) {
          case TruncateFailed =>
            text, len, cells := None, 0, 0;
          case Truncated(t, w) =>
            text, len, width, cells := Some(t), |t|, w, w;
        }
      }
    }

    /** The value, right aligned in the column's width or as it is; returns
        the length the padding loop starts from. */
    method PutBody(c: nat, color: Option<string>, f: Fitted, ghost ctx: Ctx) returns (len: nat)
      requires c < |columns| && ctx == CtxOf()
      modifies out
      ensures len == LaidLen(ctx, c, f)
      ensures out.tokens == old(out.tokens) + LaidBody(ctx, c, color, f)
    {
      len := f.len;
      if f.text.Some? {
        var xw := columns[c].width;
        if columns[c].attrs.right {
          PutColored(color, Justified(f.text.value, f.cells, xw));
          if len < xw {
            len := xw;
          }
        } else {
          PutColored(color, Text(f.text.value, f.cells));
        }
      }
    }

    /** After the padding: the separator, or the re-indent after an overflow
        that is not truncated; nothing after the last column. */
    method PutTail(c: nat, len: nat, width: nat, ghost ctx: Ctx)
      requires c < |columns| && ctx == CtxOf()
      modifies out
      ensures out.tokens == old(out.tokens) + LaidTail(ctx, c, len, width)
    {
      if c != |columns| - 1 {
        if len > width && !columns[c].attrs.trunc {
          PutReindent(c, ctx);
        } else {
          Put(Sep);
        }
      }
    }

    /** The writing part of print_data: value, padding, then the tail. */
    method PutLayout(c: nat, color: Option<string>, f: Fitted, ghost ctx: Ctx)
      requires c < |columns| && ctx == CtxOf()
      modifies out
      ensures out.tokens == old(out.tokens) + Layout(ctx, c, color, f)
    {
      ghost var t0 := out.tokens;
      var len := PutBody(c, color, f, ctx);
      ghost var body := LaidBody(ctx, c, color, f);
      ghost var t1 := out.tokens;
      PutPads(len, f.width);
      ghost var pads := Pads(if len < f.width then f.width - len else 0);
      ghost var t2 := out.tokens;
      PutTail(c, len, f.width, ctx);
      ghost var tail := LaidTail(ctx, c, len, f.width);
      assert out.tokens == t2 + tail && t2 == t1 + pads && t1 == t0 + body;
      AppendAssoc(t0, body, pads);
      AppendAssoc(t0, body + pads, tail);
    }

    /** print_data in the formatted mode. */
    method PrintFormatted(c: nat, color: Option<string>, data: string, ghost ctx: Ctx)
      requires c < |columns| && ctx == CtxOf()
      modifies out
      ensures out.tokens == old(out.tokens) + Formatted(ctx, c, color, data)
    {
      var text, len, width, cells := FitValue(c, data);
      PutLayout(c, color, Fitted(text, len, width, cells), ctx);
    }

    /** print_data: one cell in raw, export or formatted mode. */
    method PrintData(c: nat, lnColor: Option<string>, ce: Option<Cell>, data: Option<string>, ghost ctx: Ctx)
      requires c < |columns| && ctx == CtxOf()
      modifies out
      ensures out.tokens == old(out.tokens) + DataTokens(ctx, c, lnColor, ce, data)
    {
      var cl := columns[c];
      var d := if data.Some? then data.value else "";
      if flags.raw {
        Put(NonBlank(d));
        if c != |columns| - 1 {
          Put(Sep);
        }
        return;
      }
      if flags.exportMode {
        Put(Assign(cl.attrs.header.data));
        Put(Quoted(d));
        if c != |columns| - 1 {
          Put(Sep);
        }
        return;
      }
      var color: Option<string> := None;
      if flags.colors {
        if ce.Some? && color.None? {
          color := ce.value.color;
        }
        if color.None? {
          color := lnColor;
        }
        if color.None? {
          color := cl.attrs.color;
        }
      }
      assert color == ResolveColor(flags.colors, ce, lnColor, cl.attrs.color);
      PrintFormatted(c, color, d, ctx);
    }

    /** print_data on column c of a row, after the columns before it. */
    method PrintRowCell(row: RowInput, c: nat, ghost ctx: Ctx, ghost cells: seq<seq<Token>>, ghost t0: seq<Token>)
      requires ctx == CtxOf() && RowFits(ctx, row) && c < |columns|
      requires cells == CellOutputs(ctx, row, |columns|) && out.tokens == t0 + FlatOut(cells, c)
      modifies out
      ensures out.tokens == t0 + FlatOut(cells, c + 1)
    {
      CellOutputsAt(ctx, row, |columns|, c);
      AppendAssoc(t0, FlatOut(cells, c), cells[c]);
      PrintData(c, row.color, row.cells[c], row.data[c], ctx);
    }

    /** The column loop of print_line and print_header: print_data on every
        column in order, with the row's colour, cell and value. */
    method PrintRow(row: RowInput, ghost ctx: Ctx)
      requires ctx == CtxOf() && RowFits(ctx, row)
      modifies out
      ensures out.tokens == old(out.tokens) + RowCells(ctx, row, |columns|)
    {
      ghost var cells := CellOutputs(ctx, row, |columns|);
      var c := 0;
      while c < |columns|
        invariant 0 <= c <= |columns| && ctx == CtxOf()
        invariant out.tokens == old(out.tokens) + FlatOut(cells, c)
      {
        PrintRowCell(row, c, ctx, cells, old(out.tokens));
        c := c + 1;
      }
      RowCellsFlat(ctx, row, |columns|, |columns|);
    }

    /** print_line: every column's cell and line_get_data's value for it,
        then a newline. */
    method PrintLine(i: nat, bufsz: nat, ghost ctx: Ctx, ghost sym: Symbols, ghost rows: seq<seq<Token>>)
      requires WellFormed(lines) && i < |lines| && bufsz >= 1
      requires ctx == CtxOf() && symbols == Some(sym) && rows == LineOutputs(ctx, lines, |lines|, bufsz, sym)
      modifies out
      ensures out.tokens == old(out.tokens) + rows[i]
    {
      LineOutputsAt(ctx, lines, |lines|, i, bufsz, sym);
      PrintRow(LineRow(CtxOf(), lines, i, bufsz, symbols.value), ctx);
      Put(Newline);
    }

    /** print_header: nothing without headings, in export mode or for a
        table without lines; otherwise every column's header cell with its
        name cut to the buffer, then a newline. */
    method PrintHeader(bufsz: nat, ghost ctx: Ctx)
      requires bufsz >= 1 && ctx == CtxOf()
      requires HeaderShown(flags, |lines|) ==> HeadersNamed(ctx)
      modifies out
      ensures out.tokens == old(out.tokens) + HeaderTokens(ctx, |lines|, bufsz)
    {
      if flags.noHeadings || flags.exportMode || |lines| == 0 {
        return;
      }
      PrintRow(HeaderRow(CtxOf(), bufsz), ctx);
      Put(Newline);
    }

    /** print_table: the header, then every line in table order. */
    method PrintTable(bufsz: nat, ghost ctx: Ctx, ghost sym: Symbols)
      requires WellFormed(lines) && bufsz >= 1 && ctx == CtxOf() && symbols == Some(sym)
      requires HeaderShown(flags, |lines|) ==> HeadersNamed(ctx)
      modifies out
      ensures out.tokens == old(out.tokens) + HeaderTokens(ctx, |lines|, bufsz)
                            + FlatOut(LineOutputs(ctx, lines, |lines|, bufsz, sym), |lines|)
    {
      PrintHeader(bufsz, ctx);
      PrintLines(bufsz, ctx, sym);
    }

    /** print_table's loop: every line in table order. */
    method PrintLines(bufsz: nat, ghost ctx: Ctx, ghost sym: Symbols)
      requires WellFormed(lines) && bufsz >= 1 && ctx == CtxOf() && symbols == Some(sym)
      modifies out
      ensures out.tokens == old(out.tokens) + FlatOut(LineOutputs(ctx, lines, |lines|, bufsz, sym), |lines|)
    {
      ghost var rows := LineOutputs(ctx, lines, |lines|, bufsz, sym);
      ghost var t0 := out.tokens;
      var i := 0;
      while i < |lines|
        invariant 0 <= i <= |lines| && ctx == CtxOf()
        invariant out.tokens == t0 + FlatOut(rows, i)
      {
        PrintNext(i, bufsz, ctx, sym, rows, t0);
        i := i + 1;
      }
    }

    /** Line i of print_table's loop. */
    method PrintNext(i: nat, bufsz: nat, ghost ctx: Ctx, ghost sym: Symbols, ghost rows: seq<seq<Token>>, ghost t0: seq<Token>)
      requires WellFormed(lines) && i < |lines| && bufsz >= 1 && ctx == CtxOf() && symbols == Some(sym)
      requires rows == LineOutputs(ctx, lines, |lines|, bufsz, sym) && out.tokens == t0 + FlatOut(rows, i)
      modifies out
      ensures out.tokens == t0 + FlatOut(rows, i + 1)
    {
      AppendAssoc(t0, FlatOut(rows, i), rows[i]);
      PrintLine(i, bufsz, ctx, sym, rows);
    }

    /** print_tree_line: the line, then each child's subtree in list order,
        down to `fuel` levels. */
    method PrintTreeLine(i: nat, bufsz: nat, fuel: nat, ghost ctx: Ctx, ghost sym: Symbols, ghost rows: seq<seq<Token>>)
      requires WellFormed(lines) && i < |lines| && bufsz >= 1 && ctx == CtxOf() && symbols == Some(sym)
      requires rows == LineOutputs(ctx, lines, |lines|, bufsz, sym)
      modifies out
      ensures out.tokens == old(out.tokens) + SubtreeOut(lines, rows, i, fuel)
      decreases fuel, 1
    {
      PrintLine(i, bufsz, ctx, sym, rows);
      if fuel == 0 {
        return;
      }
      PrintChildren(lines[i].children, bufsz, fuel - 1, ctx, sym, rows);
      AppendAssoc(old(out.tokens), rows[i], ForestOut(lines, rows, lines[i].children, fuel - 1));
    }

    /** The children loop of print_tree_line: each child's subtree in list
        order. */
    method PrintChildren(cs: seq<nat>, bufsz: nat, fuel: nat, ghost ctx: Ctx, ghost sym: Symbols, ghost rows: seq<seq<Token>>)
      requires WellFormed(lines) && bufsz >= 1 && InRange(cs, |lines|) && ctx == CtxOf() && symbols == Some(sym)
      requires rows == LineOutputs(ctx, lines, |lines|, bufsz, sym)
      modifies out
      ensures out.tokens == old(out.tokens) + ForestOut(lines, rows, cs, fuel)
      decreases fuel, 2
    {
      var k := 0;
      while k < |cs|
        invariant 0 <= k <= |cs| && ctx == CtxOf()
        invariant out.tokens == old(out.tokens) + ForestOut(lines, rows, cs[..k], fuel)
      {
        PrintTreeLine(cs[k], bufsz, fuel, ctx, sym, rows);
        assert cs[..k + 1][..k] == cs[..k];
        AppendAssoc(old(out.tokens), ForestOut(lines, rows, cs[..k], fuel), SubtreeOut(lines, rows, cs[k], fuel));
        k := k + 1;
      }
      assert cs[..|cs|] == cs;
    }

    /** print_tree: the header, then the subtree of every root line, roots in
        table order. */
    method PrintTree(bufsz: nat, ghost ctx: Ctx, ghost sym: Symbols)
      requires WellFormed(lines) && bufsz >= 1 && ctx == CtxOf() && symbols == Some(sym)
      requires HeaderShown(flags, |lines|) ==> HeadersNamed(ctx)
      modifies out
      ensures out.tokens == old(out.tokens) + HeaderTokens(ctx, |lines|, bufsz)
                            + TreeOut(lines, LineOutputs(ctx, lines, |lines|, bufsz, sym), |lines|)
    {
      PrintHeader(bufsz, ctx);
      PrintRoots(bufsz, ctx, sym);
    }

    /** print_tree's loop: the subtree of every root line, roots in table
        order. */
    method PrintRoots(bufsz: nat, ghost ctx: Ctx, ghost sym: Symbols)
      requires WellFormed(lines) && bufsz >= 1 && ctx == CtxOf() && symbols == Some(sym)
      modifies out
      ensures out.tokens == old(out.tokens) + TreeOut(lines, LineOutputs(ctx, lines, |lines|, bufsz, sym), |lines|)
    {
      ghost var rows := LineOutputs(ctx, lines, |lines|, bufsz, sym);
      ghost var t0 := out.tokens;
      var i := 0;
      while i < |lines|
        invariant 0 <= i <= |lines| && ctx == CtxOf()
        invariant out.tokens == t0 + TreeOut(lines, rows, i)
      {
        PrintRoot(i, bufsz, ctx, sym, rows, t0);
        i := i + 1;
      }
    }

    /** Line i of print_tree's loop: its subtree when it is a root, nothing
        otherwise. */
    method PrintRoot(i: nat, bufsz: nat, ghost ctx: Ctx, ghost sym: Symbols, ghost rows: seq<seq<Token>>, ghost t0: seq<Token>)
      requires WellFormed(lines) && i < |lines| && bufsz >= 1 && ctx == CtxOf() && symbols == Some(sym)
      requires rows == LineOutputs(ctx, lines, |lines|, bufsz, sym) && out.tokens == t0 + TreeOut(lines, rows, i)
      modifies out
      ensures out.tokens == t0 + TreeOut(lines, rows, i + 1)
    {
      if lines[i].parent.None? {
        PrintTreeLine(i, bufsz, |lines|, ctx, sym, rows);
        AppendAssoc(t0, TreeOut(lines, rows, i), SubtreeOut(lines, rows, i, |lines|));
      } else {
        assert TreeOut(lines, rows, i) + [] == TreeOut(lines, rows, i);
      }
    }

    /** print_table or print_tree, as the tree flag says: the header, then
        the lines in table order or in tree order. */
    method PrintAll(bufsz: nat, ghost ctx: Ctx, ghost sym: Symbols)
      requires WellFormed(lines) && bufsz >= 1 && ctx == CtxOf() && symbols == Some(sym)
      requires HeaderShown(flags, |lines|) ==> HeadersNamed(ctx)
      modifies out
      ensures out.tokens == old(out.tokens) + TableTokens(ctx, lines, bufsz, sym)
    {
      ghost var rows := LineOutputs(ctx, lines, |lines|, bufsz, sym);
      ghost var head := HeaderTokens(ctx, |lines|, bufsz);
      if flags.tree {
        PrintTree(bufsz, ctx, sym);
        TreeOutOrder(lines, rows, |lines|);
        AppendAssoc(old(out.tokens), head, TreeOut(lines, rows, |lines|));
      } else {
        PrintTable(bufsz, ctx, sym);
        FlatOutOrder(rows, |lines|);
        AppendAssoc(old(out.tokens), head, FlatOut(rows, |lines|));
      }
    }

    /** The line loop of scols_print_table: the bytes of the longest line,
        at least the target width, and one more for the NUL. */
    method LineSizeOf() returns (sz: nat)
      ensures sz == LineSize(lines, termwidth)
    {
      var m := termwidth;
      var i := 0;
      while i < |lines|
        invariant 0 <= i <= |lines| && m == LongestLine(lines, i, termwidth)
      {
        var b := LineBytes(lines[i]);
        if b > m {
          m := b;
        }
        i := i + 1;
      }
      sz := m + 1;
    }

    /** scols_print_table for a table: the default symbols when none are
        set, the terminal state and the target width, the buffer size; then
        -ENOMEM when the buffer cannot be had, and otherwise width
        negotiation (not in raw or export mode) and printing, and 0.
        `isTermIn` is what isatty says of the output, `query` what
        get_terminal_width gives (0 when unknown), `alloc` whether malloc
        succeeds. */
    method Print(query: nat, isTermIn: bool, alloc: bool, defaults: Symbols) returns (rc: int)
      requires Valid() && query <= SIZE_MAX && termreduce <= SIZE_MAX
      requires |columns| > 0 || !isTermIn || flags.raw || flags.exportMode || TermWidth(isTermIn, query, termreduce) == 0
      requires HeaderShown(flags, |lines|) ==> HeadersNamed(CtxOf())
      modifies this, columns, out
      ensures symbols == (if old(symbols).None? then Some(defaults) else old(symbols))
      ensures isTerm == isTermIn && termwidth == TermWidth(isTermIn, query, termreduce)
      ensures rc == (if alloc then 0 else -ENOMEM)
      ensures !alloc ==> Snapshot() == old(Snapshot()) && out.tokens == old(out.tokens)
      ensures alloc ==> Snapshot() == (if flags.raw || flags.exportMode then old(Snapshot())
                                       else NegotiatedWidths(EnvOf(LineSize(lines, termwidth), symbols.value, termwidth), old(Snapshot()), isTermIn))
      ensures alloc ==> out.tokens == old(out.tokens) + TableTokens(CtxOf(), lines, LineSize(lines, termwidth), symbols.value)
    {
      if symbols.None? {
        symbols := Some(defaults);
      }
      isTerm := isTermIn;
      termwidth := TermWidth(isTermIn, query, termreduce);
      var lineSz := LineSizeOf();
      if !alloc {
        return -ENOMEM;
      }
      ghost var s0 := Snapshot();
      assert s0 == old(Snapshot());
      PrintSized(lineSz, symbols.value, termwidth, isTerm);
      assert lineSz == LineSize(lines, termwidth);
      rc := 0;
    }

    /** scols_print_table once the buffer is had: width negotiation unless
        in raw or export mode, then printing. */
    method PrintSized(bufsz: nat, sym: Symbols, tw: nat, term: bool)
      requires Valid() && bufsz >= 1 && symbols == Some(sym) && termwidth == tw && isTerm == term
      requires |columns| > 0 || !term || flags.raw || flags.exportMode || tw == 0
      requires HeaderShown(flags, |lines|) ==> HeadersNamed(CtxOf())
      modifies columns, out
      ensures Snapshot() == (if flags.raw || flags.exportMode then old(Snapshot())
                             else NegotiatedWidths(EnvOf(bufsz, sym, tw), old(Snapshot()), term))
      ensures out.tokens == old(out.tokens) + TableTokens(CtxOf(), lines, bufsz, sym)
    {
      if !(flags.raw || flags.exportMode) {
        RecountWidths(bufsz, sym, tw, term, EnvOf(bufsz, sym, tw));
      }
      ghost var ctx := CtxOf();
      PrintAll(bufsz, ctx, sym);
      assert CtxOf() == ctx;
    }
  }
}
