/**
 * What the printer writes, as a sequence of tokens: print_data for one cell,
 * print_line for one row, print_header, and the whole table in flat or tree
 * order. The byte-level helpers (fputs_nonblank, fputs_quoted, printf
 * padding) and the colour escape strings are opaque: each is one token.
 */
module Render {
  import opened Wrappers
  import opened Mbs
  import opened Model
  import opened TreeArt
  import opened Traversal

  datatype Token =
    | NonBlank(s: string)                         // fputs_nonblank: raw mode value
    | Assign(name: Option<string>)                // "%s=" with the header name
    | Quoted(s: string)                           // fputs_quoted: export mode value
    | ColorOn(color: string)                      // the colour sequence
    | ColorOff                                    // UL_COLOR_RESET
    | Text(s: string, cells: nat)                 // fputs of a value `cells` cells wide
    | Justified(s: string, cells: nat, field: nat) // "%*s": right aligned in `field`
    | Pad                                         // one blank of padding
    | Sep                                         // the blank between columns
    | Newline
    | Filler(w: nat)                              // "%*s " re-indent under a column of width w

  /** What print_data reads of the table: the output flags, every column's
      attributes and working width in order, and the multibyte routines. */
  datatype Ctx = Ctx(flags: Flags, attrs: seq<ColAttrs>, widths: seq<nat>, mbs: Routines)

  predicate ValidCtx(ctx: Ctx)
  {
    |ctx.attrs| == |ctx.widths|
  }

  predicate Formatting(flags: Flags)
  {
    !flags.raw && !flags.exportMode
  }

  // ---------------------------------------------------------------------
  // Colour.

  function CellColor(ce: Option<Cell>): Option<string>
  {
    if ce.Some? then ce.value.color else None
  }

  /** The first colour that is set, in order. */
  function FirstSet(xs: seq<Option<string>>): (r: Option<string>)
    ensures r.Some? ==> exists k :: 0 <= k < |xs| && xs[k] == r
    ensures r.None? ==> forall k :: 0 <= k < |xs| ==> xs[k].None?
  {
    if |xs| == 0 then None else if xs[0].Some? then xs[0] else FirstSet(xs[1..])
  }

  /** print_data's colour: when colours are wanted, the cell's, else the
      line's, else the column's. */
  function ResolveColor(wanted: bool, ce: Option<Cell>, lnColor: Option<string>, colColor: Option<string>): (r: Option<string>)
    ensures !wanted ==> r.None?
  {
    if !wanted then None
    else if CellColor(ce).Some? then CellColor(ce)
    else if lnColor.Some? then lnColor
    else colColor
  }

  /** The colour is the first one set among cell, line and column. */
  lemma ResolveColorPrecedence(ce: Option<Cell>, lnColor: Option<string>, colColor: Option<string>)
    ensures ResolveColor(true, ce, lnColor, colColor) == FirstSet([CellColor(ce), lnColor, colColor])
  {
    var xs := [CellColor(ce), lnColor, colColor];
    assert xs[1..] == [lnColor, colColor];
    assert xs[1..][1..] == [colColor];
    assert FirstSet(xs[1..][1..]) == colColor by {
      assert xs[1..][1..][1..] == [];
    }
    assert FirstSet(xs[1..]) == if lnColor.Some? then lnColor else colColor;
  }

  function Colored(color: Option<string>, ts: seq<Token>): seq<Token>
  {
    if color.Some? then [ColorOn(color.value)] + ts + [ColorOff] else ts
  }

  // ---------------------------------------------------------------------
  // One cell.

  /** The encoded value and its width in cells; no value when encoding
      failed or the width is 0 or broken. */
  datatype Measured = Measured(text: Option<string>, len: nat)

  function Encode(mbs: Routines, data: string): (m: Measured)
    ensures m.text.None? <==> m.len == 0
  {
    match mbs.safeEncode(data)
    case EncodeFailed => Measured(None, 0)
    case Encoded(t, w) => if w.Broken? || w.n == 0 then Measured(None, 0) else Measured(Some(t), w.n)
  }

  /** After the truncation step: the value, `len` as the padding loop counts
      it, the width it pads to, and the value's width in cells. */
  datatype Fitted = Fitted(text: Option<string>, len: nat, width: nat, cells: nat)

  /** mbs_truncate on the value: on success `len` becomes the byte length of
      the cut value and the width its width in cells; on failure nothing is
      printed. */
  function Truncate(mbs: Routines, m: Measured, width: nat): (f: Fitted)
    ensures f.text.None? ==> f.len == 0 && f.width == width && f.cells == 0
  {
    if m.text.None? then Fitted(None, 0, width, 0)
    else match mbs.truncate(m.text.value, width)
      case TruncateFailed => Fitted(None, 0, width, 0)
      case Truncated(t, w) => Fitted(Some(t), |t|, w, w)
  }

  /** The width print_data fills: the column's, except that a narrower value
      in the last column is not padded unless the table is maximized. */
  function FillWidth(ctx: Ctx, c: nat, len: nat): (w: nat)
    requires ValidCtx(ctx) && c < |ctx.attrs|
    ensures w <= ctx.widths[c]
  {
    if c + 1 == |ctx.attrs| && len < ctx.widths[c] && !ctx.flags.maxout then len else ctx.widths[c]
  }

  /** A truncatable over-wide value is cut to the fill width. */
  function Fit(ctx: Ctx, c: nat, m: Measured): (f: Fitted)
    requires ValidCtx(ctx) && c < |ctx.attrs|
  {
    var width := FillWidth(ctx, c, m.len);
    if m.len > width && ctx.attrs[c].trunc then Truncate(ctx.mbs, m, width)
    else Fitted(m.text, m.len, width, m.len)
  }

  function Fillers(ws: seq<nat>): (r: seq<Token>)
  {
    seq(|ws|, k requires 0 <= k < |ws| => Filler(ws[k]))
  }

  function Pads(n: nat): (r: seq<Token>)
  {
    seq(n, _ => Pad)
  }

  /** print_data's output for a fitted value: the value, right aligned in
      the column's width or as it is, the padding, and either nothing (last
      column), a separator, or the re-indent after an overflow. */
  function Layout(ctx: Ctx, c: nat, color: Option<string>, f: Fitted): seq<Token>
    requires ValidCtx(ctx) && c < |ctx.attrs|
  {
    var len := LaidLen(ctx, c, f);
    LaidBody(ctx, c, color, f) + Pads(if len < f.width then f.width - len else 0) + LaidTail(ctx, c, len, f.width)
  }

  /** The value itself, right aligned in the column's width or as it is. */
  function LaidBody(ctx: Ctx, c: nat, color: Option<string>, f: Fitted): seq<Token>
    requires ValidCtx(ctx) && c < |ctx.attrs|
  {
    if f.text.None? then []
    else if ctx.attrs[c].right then Colored(color, [Justified(f.text.value, f.cells, ctx.widths[c])])
    else Colored(color, [Text(f.text.value, f.cells)])
  }

  /** The length the padding starts from: a right-aligned value counts as
      filling the column's width. */
  function LaidLen(ctx: Ctx, c: nat, f: Fitted): nat
    requires ValidCtx(ctx) && c < |ctx.attrs|
  {
    if f.text.Some? && ctx.attrs[c].right && f.len < ctx.widths[c] then ctx.widths[c] else f.len
  }

  /** Nothing after the last column; the re-indent after an overflow that is
      not truncated; a separator otherwise. */
  function LaidTail(ctx: Ctx, c: nat, len: nat, width: nat): seq<Token>
    requires ValidCtx(ctx) && c < |ctx.attrs|
  {
    if c + 1 == |ctx.attrs| then []
    else if len > width && !ctx.attrs[c].trunc then [Newline] + Fillers(ctx.widths[..c + 1])
    else [Sep]
  }

  /** print_data in the formatted mode. */
  function Formatted(ctx: Ctx, c: nat, color: Option<string>, data: string): seq<Token>
    requires ValidCtx(ctx) && c < |ctx.attrs|
  {
    Layout(ctx, c, color, Fit(ctx, c, Encode(ctx.mbs, data)))
  }

  /** print_data: the value of column `c` (none is the empty string), in raw,
      export or formatted mode. */
  function DataTokens(ctx: Ctx, c: nat, lnColor: Option<string>, ce: Option<Cell>, data: Option<string>): seq<Token>
    requires ValidCtx(ctx) && c < |ctx.attrs|
  {
    var a := ctx.attrs[c];
    var d := if data.Some? then data.value else "";
    var sep := if c + 1 == |ctx.attrs| then [] else [Sep];
    if ctx.flags.raw then [NonBlank(d)] + sep
    else if ctx.flags.exportMode then [Assign(a.header.data), Quoted(d)] + sep
    else Formatted(ctx, c, ResolveColor(ctx.flags.colors, ce, lnColor, a.color), d)
  }

  /** How many cells a stretch of the line covers. A right-aligned value is
      padded by printf in bytes, so it covers its own cells plus the field
      width beyond its byte length. */
  function TokenCells(t: Token): nat
  {
    match t
    case Text(_, n) => n
    case Justified(s, n, field) => n + (if |s| < field then field - |s| else 0)
    case Pad => 1
    case _ => 0
  }

  function Occupied(ts: seq<Token>): nat
  {
    if |ts| == 0 then 0 else Occupied(ts[..|ts| - 1]) + TokenCells(ts[|ts| - 1])
  }

  lemma {:induction false} OccupiedConcat(a: seq<Token>, b: seq<Token>)
    ensures Occupied(a + b) == Occupied(a) + Occupied(b)
    decreases |b|
  {
    if |b| == 0 {
      assert a + b == a;
    } else {
      assert (a + b)[..|a + b| - 1] == a + b[..|b| - 1];
      OccupiedConcat(a, b[..|b| - 1]);
    }
  }

  lemma {:induction false} OccupiedPads(n: nat)
    ensures Occupied(Pads(n)) == n
  {
    if n > 0 {
      assert Pads(n)[..n - 1] == Pads(n - 1);
      OccupiedPads(n - 1);
    }
  }

  lemma OccupiedColored(color: Option<string>, ts: seq<Token>)
    ensures Occupied(Colored(color, ts)) == Occupied(ts)
  {
    if color.Some? {
      OccupiedConcat([ColorOn(color.value)], ts);
      OccupiedConcat([ColorOn(color.value)] + ts, [ColorOff]);
      assert Occupied([ColorOn(color.value)]) == 0 by {
        assert [ColorOn(color.value)][..0] == [];
      }
      assert Occupied([ColorOff]) == 0 by {
        assert [ColorOff][..0] == [];
      }
    }
  }

  /** The truncation routine never fails. */
  ghost predicate TruncatesAlways(mbs: Routines)
  {
    forall s, w :: mbs.truncate(s, w).Truncated?
  }

  /** Raw and export modes: the value (after `NAME=` in export mode), then
      one separator unless the column is the last. */
  lemma RawAndExportShape(ctx: Ctx, c: nat, lnColor: Option<string>, ce: Option<Cell>, data: Option<string>)
    requires ValidCtx(ctx) && c < |ctx.attrs|
    ensures var r := DataTokens(ctx, c, lnColor, ce, data);
            var d := if data.Some? then data.value else "";
            var last := c + 1 == |ctx.attrs|;
            && (ctx.flags.raw ==> r == (if last then [NonBlank(d)] else [NonBlank(d), Sep]))
            && (!ctx.flags.raw && ctx.flags.exportMode ==>
                  r == (if last then [Assign(ctx.attrs[c].header.data), Quoted(d)]
                        else [Assign(ctx.attrs[c].header.data), Quoted(d), Sep]))
  {
  }

  /** No token of the stretch is padding, a separator or a newline. */
  predicate Unspaced(ts: seq<Token>)
  {
    forall k :: 0 <= k < |ts| ==> ts[k] != Pad && ts[k] != Sep && ts[k] != Newline
  }

  /** Every value token of the stretch is `n` cells wide. */
  predicate ValuesOf(ts: seq<Token>, n: nat)
  {
    forall k :: 0 <= k < |ts| ==> (ts[k].Text? ==> ts[k].cells == n) && (ts[k].Justified? ==> ts[k].cells == n)
  }

  lemma ColoredKeeps(color: Option<string>, ts: seq<Token>, n: nat)
    ensures Unspaced(ts) ==> Unspaced(Colored(color, ts))
    ensures ValuesOf(ts, n) ==> ValuesOf(Colored(color, ts), n)
  {
  }

  lemma LaidBodyShape(ctx: Ctx, c: nat, color: Option<string>, f: Fitted)
    requires ValidCtx(ctx) && c < |ctx.attrs|
    ensures Unspaced(LaidBody(ctx, c, color, f)) && ValuesOf(LaidBody(ctx, c, color, f), f.cells)
  {
    if f.text.Some? {
      if ctx.attrs[c].right {
        ColoredKeeps(color, [Justified(f.text.value, f.cells, ctx.widths[c])], f.cells);
      } else {
        ColoredKeeps(color, [Text(f.text.value, f.cells)], f.cells);
      }
    }
  }

  /** The last column's fill width never exceeds what its value covers,
      unless truncation fails. */
  lemma LastFitCovers(ctx: Ctx, m: Measured)
    requires ValidCtx(ctx) && |ctx.attrs| > 0 && !ctx.flags.maxout
    requires Sound(ctx.mbs) && TruncatesAlways(ctx.mbs) && (m.text.None? ==> m.len == 0)
    ensures var f := Fit(ctx, |ctx.attrs| - 1, m); f.width <= f.len
  {
    var c := |ctx.attrs| - 1;
    var width := FillWidth(ctx, c, m.len);
    if m.len > width && ctx.attrs[c].trunc && m.text.Some? {
      var tr := ctx.mbs.truncate(m.text.value, width);
      assert tr.Truncated?;
    }
  }

  /** In the formatted mode the last column of a table that is not maximized
      gets no padding and nothing after its value, provided truncation
      succeeds. */
  lemma LastColumnUnpadded(ctx: Ctx, lnColor: Option<string>, ce: Option<Cell>, data: Option<string>)
    requires ValidCtx(ctx) && |ctx.attrs| > 0 && Formatting(ctx.flags) && !ctx.flags.maxout
    requires Sound(ctx.mbs) && TruncatesAlways(ctx.mbs)
    ensures Unspaced(DataTokens(ctx, |ctx.attrs| - 1, lnColor, ce, data))
  {
    var c := |ctx.attrs| - 1;
    var d := if data.Some? then data.value else "";
    var color := ResolveColor(ctx.flags.colors, ce, lnColor, ctx.attrs[c].color);
    var f := Fit(ctx, c, Encode(ctx.mbs, d));
    assert DataTokens(ctx, c, lnColor, ce, data) == Layout(ctx, c, color, f);
    LastFitCovers(ctx, Encode(ctx.mbs, d));
    LastLayoutIsBody(ctx, color, f);
    LaidBodyShape(ctx, c, color, f);
  }

  /** A last-column value at least as long as its fill width is laid out
      alone. */
  lemma LastLayoutIsBody(ctx: Ctx, color: Option<string>, f: Fitted)
    requires ValidCtx(ctx) && |ctx.attrs| > 0 && f.width <= f.len
    ensures Layout(ctx, |ctx.attrs| - 1, color, f) == LaidBody(ctx, |ctx.attrs| - 1, color, f)
  {
    var c := |ctx.attrs| - 1;
    assert LaidLen(ctx, c, f) >= f.width;
    assert Pads(0) == [];
    assert LaidTail(ctx, c, LaidLen(ctx, c, f), f.width) == [];
  }

  /** The only values a laid-out cell holds are the fitted value, at its
      width in cells. */
  lemma LaidValues(ctx: Ctx, c: nat, color: Option<string>, f: Fitted)
    requires ValidCtx(ctx) && c < |ctx.attrs|
    ensures ValuesOf(Layout(ctx, c, color, f), f.cells)
  {
    var len := LaidLen(ctx, c, f);
    var body := LaidBody(ctx, c, color, f);
    var pads := Pads(if len < f.width then f.width - len else 0);
    var tail := LaidTail(ctx, c, len, f.width);
    LaidBodyShape(ctx, c, color, f);
    assert ValuesOf(pads, f.cells);
    assert ValuesOf(tail, f.cells);
    assert Layout(ctx, c, color, f) == body + pads + tail;
  }

  /** A truncatable column never prints a value wider than its width. */
  lemma TruncatedWithinWidth(ctx: Ctx, c: nat, lnColor: Option<string>, ce: Option<Cell>, data: Option<string>)
    requires ValidCtx(ctx) && c < |ctx.attrs| && Formatting(ctx.flags) && ctx.attrs[c].trunc
    requires Sound(ctx.mbs)
    ensures var r := DataTokens(ctx, c, lnColor, ce, data);
            forall k :: 0 <= k < |r| ==>
              (r[k].Text? ==> r[k].cells <= ctx.widths[c]) &&
              (r[k].Justified? ==> r[k].cells <= ctx.widths[c])
  {
    var d := if data.Some? then data.value else "";
    var color := ResolveColor(ctx.flags.colors, ce, lnColor, ctx.attrs[c].color);
    var m := Encode(ctx.mbs, d);
    var width := FillWidth(ctx, c, m.len);
    var f := Fit(ctx, c, m);
    if m.len > width && m.text.Some? {
      var tr := ctx.mbs.truncate(m.text.value, width);
      if tr.Truncated? {
        assert tr.width <= width;
      }
    }
    assert f.cells <= ctx.widths[c];
    assert DataTokens(ctx, c, lnColor, ce, data) == Layout(ctx, c, color, f);
    LaidValues(ctx, c, color, f);
  }

  /** A value that fits a left-aligned column other than the last fills
      exactly the column's width, then one separator. */
  lemma FittingCellFillsColumn(ctx: Ctx, c: nat, lnColor: Option<string>, ce: Option<Cell>, data: Option<string>)
    requires ValidCtx(ctx) && c + 1 < |ctx.attrs| && Formatting(ctx.flags) && !ctx.attrs[c].right
    requires Encode(ctx.mbs, if data.Some? then data.value else "").len <= ctx.widths[c]
    ensures var r := DataTokens(ctx, c, lnColor, ce, data);
            && |r| > 0 && r[|r| - 1] == Sep
            && Occupied(r[..|r| - 1]) == ctx.widths[c]
            && forall k :: 0 <= k < |r| - 1 ==> r[k] != Sep && r[k] != Newline
  {
    var d := if data.Some? then data.value else "";
    var color := ResolveColor(ctx.flags.colors, ce, lnColor, ctx.attrs[c].color);
    var m := Encode(ctx.mbs, d);
    var xw := ctx.widths[c];
    var f := Fit(ctx, c, m);
    assert f == Fitted(m.text, m.len, xw, m.len);
    var body := LaidBody(ctx, c, color, f);
    var pads := Pads(xw - m.len);
    assert LaidLen(ctx, c, f) == m.len;
    assert LaidTail(ctx, c, m.len, xw) == [Sep];
    var r := DataTokens(ctx, c, lnColor, ce, data);
    assert r == Layout(ctx, c, color, f);
    assert r == body + pads + [Sep];
    assert r[..|r| - 1] == body + pads;
    LaidBodyShape(ctx, c, color, f);
    LaidBodyOccupied(ctx, c, color, f);
    OccupiedConcat(body, pads);
    OccupiedPads(xw - m.len);
    UnbrokenConcat(body, pads);
  }

  /** No token of the stretch is a separator or a newline. */
  predicate Unbroken(ts: seq<Token>)
  {
    forall k :: 0 <= k < |ts| ==> ts[k] != Sep && ts[k] != Newline
  }

  lemma UnbrokenConcat(body: seq<Token>, pads: seq<Token>)
    requires Unspaced(body) && forall k :: 0 <= k < |pads| ==> pads[k] == Pad
    ensures Unbroken(body + pads)
  {
  }

  /** A left-aligned value covers its width in cells. */
  lemma LaidBodyOccupied(ctx: Ctx, c: nat, color: Option<string>, f: Fitted)
    requires ValidCtx(ctx) && c < |ctx.attrs| && !ctx.attrs[c].right
    ensures Occupied(LaidBody(ctx, c, color, f)) == if f.text.Some? then f.cells else 0
  {
    if f.text.Some? {
      OccupiedColored(color, [Text(f.text.value, f.cells)]);
      assert [Text(f.text.value, f.cells)][..0] == [];
    }
  }

  /** A value too wide for a non-truncatable column other than the last is
      printed whole, unpadded, and followed by a newline and one filler per
      column up to and including this one. */
  lemma OverflowReindents(ctx: Ctx, c: nat, lnColor: Option<string>, ce: Option<Cell>, data: Option<string>)
    requires ValidCtx(ctx) && c + 1 < |ctx.attrs| && Formatting(ctx.flags) && !ctx.attrs[c].trunc
    requires Encode(ctx.mbs, if data.Some? then data.value else "").len > ctx.widths[c]
    ensures var r := DataTokens(ctx, c, lnColor, ce, data);
            var m := Encode(ctx.mbs, if data.Some? then data.value else "");
            var color := ResolveColor(ctx.flags.colors, ce, lnColor, ctx.attrs[c].color);
            var v := if ctx.attrs[c].right then Justified(m.text.value, m.len, ctx.widths[c])
                     else Text(m.text.value, m.len);
            r == Colored(color, [v]) + [Newline] + Fillers(ctx.widths[..c + 1])
  {
  }

  // ---------------------------------------------------------------------
  // Rows, the header and the table.

  /** What print_data receives for each column of one row: the row's colour
      (none for the header), and per column the cell and its value. */
  datatype RowInput = RowInput(color: Option<string>, cells: seq<Option<Cell>>, data: seq<Option<string>>)

  predicate RowFits(ctx: Ctx, row: RowInput)
  {
    |row.cells| == |ctx.attrs| && |row.data| == |ctx.attrs|
  }

  /** print_data on columns 0..n-1 of a row, one after the other. */
  function RowCells(ctx: Ctx, row: RowInput, n: nat): seq<Token>
    requires ValidCtx(ctx) && RowFits(ctx, row) && n <= |ctx.attrs|
  {
    if n == 0 then []
    else RowCells(ctx, row, n - 1) + DataTokens(ctx, n - 1, row.color, row.cells[n - 1], row.data[n - 1])
  }

  /** What print_data writes for each of the first n columns of a row,
      indexed by column. */
  function CellOutputs(ctx: Ctx, row: RowInput, n: nat): (r: seq<seq<Token>>)
    requires ValidCtx(ctx) && RowFits(ctx, row) && n <= |ctx.attrs|
    ensures |r| == n
  {
    if n == 0 then []
    else CellOutputs(ctx, row, n - 1) + [DataTokens(ctx, n - 1, row.color, row.cells[n - 1], row.data[n - 1])]
  }

  lemma {:induction false} CellOutputsAt(ctx: Ctx, row: RowInput, n: nat, c: nat)
    requires ValidCtx(ctx) && RowFits(ctx, row) && c < n <= |ctx.attrs|
    ensures CellOutputs(ctx, row, n)[c] == DataTokens(ctx, c, row.color, row.cells[c], row.data[c])
  {
    if c < n - 1 {
      CellOutputsAt(ctx, row, n - 1, c);
    }
  }

  /** The row's first m cells are the first m column outputs, one after the
      other. */
  lemma {:induction false} RowCellsFlat(ctx: Ctx, row: RowInput, m: nat, n: nat)
    requires ValidCtx(ctx) && RowFits(ctx, row) && m <= n <= |ctx.attrs|
    ensures RowCells(ctx, row, m) == FlatOut(CellOutputs(ctx, row, n), m)
  {
    if m > 0 {
      RowCellsFlat(ctx, row, m - 1, n);
      CellOutputsAt(ctx, row, n, m - 1);
    }
  }

  /** print_line's input for line i: the line's colour, and for column c the
      line's cell c and line_get_data's value for it. */
  function LineRow(ctx: Ctx, ls: seq<Line>, i: nat, bufsz: nat, sym: Symbols): (r: RowInput)
    requires ValidCtx(ctx) && WellFormed(ls) && i < |ls| && bufsz >= 1
    ensures RowFits(ctx, r)
  {
    RowInput(ls[i].color,
             seq(|ctx.attrs|, c requires 0 <= c < |ctx.attrs| => GetCell(ls[i], c)),
             seq(|ctx.attrs|, c requires 0 <= c < |ctx.attrs| => LineData(ls, i, ctx.attrs[c], c, bufsz, sym)))
  }

  /** print_line: every column's cell, then a newline. */
  function LineTokens(ctx: Ctx, ls: seq<Line>, i: nat, bufsz: nat, sym: Symbols): seq<Token>
    requires ValidCtx(ctx) && WellFormed(ls) && i < |ls| && bufsz >= 1
  {
    RowCells(ctx, LineRow(ctx, ls, i, bufsz, sym), |ctx.attrs|) + [Newline]
  }

  /** Output written after output: appending is associative. */
  lemma AppendAssoc(a: seq<Token>, b: seq<Token>, c: seq<Token>)
    ensures a + b + c == a + (b + c)
  {
  }

  function CountOf(ts: seq<Token>, t: Token): nat
  {
    if |ts| == 0 then 0 else CountOf(ts[..|ts| - 1], t) + (if ts[|ts| - 1] == t then 1 else 0)
  }

  lemma {:induction false} CountOfConcat(a: seq<Token>, b: seq<Token>, t: Token)
    ensures CountOf(a + b, t) == CountOf(a, t) + CountOf(b, t)
    decreases |b|
  {
    if |b| == 0 {
      assert a + b == a;
    } else {
      assert (a + b)[..|a + b| - 1] == a + b[..|b| - 1];
      CountOfConcat(a, b[..|b| - 1], t);
    }
  }

  lemma CountOfSingle(t: Token, u: Token)
    ensures CountOf([t], u) == (if t == u then 1 else 0)
  {
    assert [t][..0] == [];
  }

  /** In raw and export mode one cell holds a separator exactly when it is
      not the last, and no newline. */
  lemma RawCellCounts(ctx: Ctx, c: nat, lnColor: Option<string>, ce: Option<Cell>, data: Option<string>)
    requires ValidCtx(ctx) && c < |ctx.attrs| && (ctx.flags.raw || ctx.flags.exportMode)
    ensures var d := DataTokens(ctx, c, lnColor, ce, data);
            && CountOf(d, Sep) == (if c + 1 == |ctx.attrs| then 0 else 1)
            && CountOf(d, Newline) == 0
  {
    RawAndExportShape(ctx, c, lnColor, ce, data);
    var dtext := if data.Some? then data.value else "";
    var v := if ctx.flags.raw then [NonBlank(dtext)] else [Assign(ctx.attrs[c].header.data), Quoted(dtext)];
    assert CountOf(v, Sep) == 0 && CountOf(v, Newline) == 0 by {
      if ctx.flags.raw {
        CountOfSingle(NonBlank(dtext), Sep);
        CountOfSingle(NonBlank(dtext), Newline);
      } else {
        assert v == [Assign(ctx.attrs[c].header.data)] + [Quoted(dtext)];
        CountOfSingle(Assign(ctx.attrs[c].header.data), Sep);
        CountOfSingle(Assign(ctx.attrs[c].header.data), Newline);
        CountOfSingle(Quoted(dtext), Sep);
        CountOfSingle(Quoted(dtext), Newline);
        CountOfConcat([Assign(ctx.attrs[c].header.data)], [Quoted(dtext)], Sep);
        CountOfConcat([Assign(ctx.attrs[c].header.data)], [Quoted(dtext)], Newline);
      }
    }
    if c + 1 < |ctx.attrs| {
      CountOfConcat(v, [Sep], Sep);
      CountOfConcat(v, [Sep], Newline);
      assert [Sep][..0] == [];
    }
  }

  /** In raw and export mode the first n cells of a row hold one separator
      each, except the last column's, and no newline. */
  lemma {:induction false} RawRowSeparators(ctx: Ctx, row: RowInput, n: nat)
    requires ValidCtx(ctx) && RowFits(ctx, row) && 0 < n <= |ctx.attrs|
    requires ctx.flags.raw || ctx.flags.exportMode
    ensures CountOf(RowCells(ctx, row, n), Sep) == (if n == |ctx.attrs| then n - 1 else n)
    ensures CountOf(RowCells(ctx, row, n), Newline) == 0
  {
    var c := n - 1;
    var d := DataTokens(ctx, c, row.color, row.cells[c], row.data[c]);
    RawCellCounts(ctx, c, row.color, row.cells[c], row.data[c]);
    if n == 1 {
      assert RowCells(ctx, row, 0) == [];
      assert RowCells(ctx, row, n) == [] + d;
      assert [] + d == d;
    } else {
      RawRowSeparators(ctx, row, n - 1);
      CountOfConcat(RowCells(ctx, row, n - 1), d, Sep);
      CountOfConcat(RowCells(ctx, row, n - 1), d, Newline);
    }
  }

  /** Every column header carries a name. */
  predicate HeadersNamed(ctx: Ctx)
  {
    forall c :: 0 <= c < |ctx.attrs| ==> ctx.attrs[c].header.data.Some?
  }

  /** Whether print_header prints anything. */
  predicate HeaderShown(flags: Flags, nlines: nat)
  {
    !flags.noHeadings && !flags.exportMode && nlines > 0
  }

  /** print_header's input: no row colour, the header cell of each column,
      and its name cut to the buffer. */
  function HeaderRow(ctx: Ctx, bufsz: nat): (r: RowInput)
    requires ValidCtx(ctx) && HeadersNamed(ctx) && bufsz >= 1
    ensures RowFits(ctx, r)
  {
    RowInput(None,
             seq(|ctx.attrs|, c requires 0 <= c < |ctx.attrs| => Some(ctx.attrs[c].header)),
             seq(|ctx.attrs|, c requires 0 <= c < |ctx.attrs| => Some(Prefix(ctx.attrs[c].header.data.value, bufsz - 1))))
  }

  /** print_header: the header row, or nothing without headings, in export
      mode or for a table without lines. A header without a name is read as
      a null string by the C code, so printing one requires every name. */
  function HeaderTokens(ctx: Ctx, nlines: nat, bufsz: nat): (r: seq<Token>)
    requires ValidCtx(ctx) && bufsz >= 1 && (HeaderShown(ctx.flags, nlines) ==> HeadersNamed(ctx))
    ensures r == [] <==> !HeaderShown(ctx.flags, nlines)
    ensures r != [] ==> r[|r| - 1] == Newline
  {
    if !HeaderShown(ctx.flags, nlines) then []
    else RowCells(ctx, HeaderRow(ctx, bufsz), |ctx.attrs|) + [Newline]
  }

  /** What print_line writes for each of the first n lines, indexed by
      line. */
  function LineOutputs(ctx: Ctx, ls: seq<Line>, n: nat, bufsz: nat, sym: Symbols): (r: seq<seq<Token>>)
    requires ValidCtx(ctx) && WellFormed(ls) && bufsz >= 1 && n <= |ls|
    ensures |r| == n
  {
    if n == 0 then [] else LineOutputs(ctx, ls, n - 1, bufsz, sym) + [LineTokens(ctx, ls, n - 1, bufsz, sym)]
  }

  lemma {:induction false} LineOutputsAt(ctx: Ctx, ls: seq<Line>, n: nat, i: nat, bufsz: nat, sym: Symbols)
    requires ValidCtx(ctx) && WellFormed(ls) && bufsz >= 1 && i < n <= |ls|
    ensures LineOutputs(ctx, ls, n, bufsz, sym)[i] == LineTokens(ctx, ls, i, bufsz, sym)
  {
    if i < n - 1 {
      LineOutputsAt(ctx, ls, n - 1, i, bufsz, sym);
    }
  }

  predicate InRange(order: seq<nat>, n: nat)
  {
    forall k :: 0 <= k < |order| ==> order[k] < n
  }

  /** The outputs of the lines in `order`, one after the other. */
  function Gather(rows: seq<seq<Token>>, order: seq<nat>): seq<Token>
    requires InRange(order, |rows|)
  {
    if |order| == 0 then [] else Gather(rows, order[..|order| - 1]) + rows[order[|order| - 1]]
  }

  lemma {:induction false} GatherConcat(rows: seq<seq<Token>>, a: seq<nat>, b: seq<nat>)
    requires InRange(a, |rows|) && InRange(b, |rows|)
    ensures InRange(a + b, |rows|)
    ensures Gather(rows, a + b) == Gather(rows, a) + Gather(rows, b)
    decreases |b|
  {
    if |b| == 0 {
      assert a + b == a;
    } else {
      assert (a + b)[..|a + b| - 1] == a + b[..|b| - 1];
      GatherConcat(rows, a, b[..|b| - 1]);
    }
  }

  lemma GatherOne(rows: seq<seq<Token>>, i: nat)
    requires i < |rows|
    ensures InRange([i], |rows|) && Gather(rows, [i]) == rows[i]
  {
    assert [i][..0] == [];
  }

  /** The lines in the given order, each as print_line writes it. */
  function LinesTokens(ctx: Ctx, ls: seq<Line>, order: seq<nat>, bufsz: nat, sym: Symbols): seq<Token>
    requires ValidCtx(ctx) && WellFormed(ls) && bufsz >= 1 && InRange(order, |ls|)
  {
    Gather(LineOutputs(ctx, ls, |ls|, bufsz, sym), order)
  }

  /** What print_table's loop writes for the first n lines. */
  function FlatOut(rows: seq<seq<Token>>, n: nat): seq<Token>
    requires n <= |rows|
  {
    if n == 0 then [] else FlatOut(rows, n - 1) + rows[n - 1]
  }

  /** print_table writes the lines in table order. */
  lemma {:induction false} FlatOutOrder(rows: seq<seq<Token>>, n: nat)
    requires n <= |rows|
    ensures FlatOut(rows, n) == Gather(rows, FlatOrder(n))
  {
    if n > 0 {
      FlatOutOrder(rows, n - 1);
      assert FlatOrder(n)[..n - 1] == FlatOrder(n - 1);
    }
  }

  /** What print_tree_line writes for line i, down to `fuel` levels: the
      line, then each child's output in list order. */
  function SubtreeOut(ls: seq<Line>, rows: seq<seq<Token>>, i: nat, fuel: nat): seq<Token>
    requires WellFormed(ls) && |rows| == |ls| && i < |ls|
    decreases fuel, 0
  {
    if fuel == 0 then rows[i] else rows[i] + ForestOut(ls, rows, ls[i].children, fuel - 1)
  }

  /** What print_tree_line writes for a run of siblings. */
  function ForestOut(ls: seq<Line>, rows: seq<seq<Token>>, cs: seq<nat>, fuel: nat): seq<Token>
    requires WellFormed(ls) && |rows| == |ls| && InRange(cs, |ls|)
    decreases fuel, |cs| + 1
  {
    if |cs| == 0 then []
    else ForestOut(ls, rows, cs[..|cs| - 1], fuel) + SubtreeOut(ls, rows, cs[|cs| - 1], fuel)
  }

  /** What print_tree's loop writes for the first n lines. */
  function TreeOut(ls: seq<Line>, rows: seq<seq<Token>>, n: nat): seq<Token>
    requires WellFormed(ls) && |rows| == |ls| && n <= |ls|
  {
    if n == 0 then []
    else TreeOut(ls, rows, n - 1) + (if ls[n - 1].parent.None? then SubtreeOut(ls, rows, n - 1, |ls|) else [])
  }

  /** print_tree_line writes the lines of the subtree in traversal order. */
  lemma {:induction false} SubtreeOutOrder(ls: seq<Line>, rows: seq<seq<Token>>, i: nat, fuel: nat)
    requires WellFormed(ls) && |rows| == |ls| && i < |ls|
    ensures SubtreeOut(ls, rows, i, fuel) == Gather(rows, Subtree(ls, i, fuel))
    decreases fuel, 0
  {
    GatherOne(rows, i);
    if fuel > 0 {
      var cs := ls[i].children;
      var f := Forest(ls, cs, fuel - 1);
      assert InRange(f, |rows|);
      ForestOutOrder(ls, rows, cs, fuel - 1);
      GatherConcat(rows, [i], f);
      calc {
        SubtreeOut(ls, rows, i, fuel);
        rows[i] + ForestOut(ls, rows, cs, fuel - 1);
        Gather(rows, [i]) + Gather(rows, f);
        Gather(rows, [i] + f);
        { assert Subtree(ls, i, fuel) == [i] + f; }
        Gather(rows, Subtree(ls, i, fuel));
      }
    } else {
      assert Subtree(ls, i, fuel) == [i];
    }
  }

  lemma {:induction false} ForestOutOrder(ls: seq<Line>, rows: seq<seq<Token>>, cs: seq<nat>, fuel: nat)
    requires WellFormed(ls) && |rows| == |ls| && InRange(cs, |ls|)
    ensures ForestOut(ls, rows, cs, fuel) == Gather(rows, Forest(ls, cs, fuel))
    decreases fuel, |cs| + 1
  {
    if |cs| > 0 {
      var front := cs[..|cs| - 1];
      ForestOutOrder(ls, rows, front, fuel);
      SubtreeOutOrder(ls, rows, cs[|cs| - 1], fuel);
      GatherConcat(rows, Forest(ls, front, fuel), Subtree(ls, cs[|cs| - 1], fuel));
    }
  }

  /** print_tree writes the lines in tree order: each root's subtree, in
      table order of the roots. */
  lemma {:induction false} TreeOutOrder(ls: seq<Line>, rows: seq<seq<Token>>, n: nat)
    requires WellFormed(ls) && |rows| == |ls| && n <= |ls|
    ensures TreeOut(ls, rows, n) == Gather(rows, TreeOrder(ls, n))
  {
    if n > 0 {
      TreeOutOrder(ls, rows, n - 1);
      if ls[n - 1].parent.None? {
        TreeOutRoot(ls, rows, n);
      } else {
        assert TreeOrder(ls, n) == TreeOrder(ls, n - 1);
        assert TreeOut(ls, rows, n) == TreeOut(ls, rows, n - 1) + [];
      }
    }
  }

  /** A root extends both the output and the order by its subtree. */
  lemma TreeOutRoot(ls: seq<Line>, rows: seq<seq<Token>>, n: nat)
    requires WellFormed(ls) && |rows| == |ls| && 0 < n <= |ls| && ls[n - 1].parent.None?
    requires TreeOut(ls, rows, n - 1) == Gather(rows, TreeOrder(ls, n - 1))
    ensures TreeOut(ls, rows, n) == Gather(rows, TreeOrder(ls, n))
  {
    var front := TreeOrder(ls, n - 1);
    var sub := Subtree(ls, n - 1, |ls|);
    assert InRange(front, |rows|) && InRange(sub, |rows|);
    SubtreeOutOrder(ls, rows, n - 1, |ls|);
    GatherConcat(rows, front, sub);
    assert TreeOrder(ls, n) == front + sub;
    assert TreeOut(ls, rows, n) == TreeOut(ls, rows, n - 1) + SubtreeOut(ls, rows, n - 1, |ls|);
  }

  /** print_table and print_tree: the header, then every line in table order,
      or in tree mode every root's subtree. */
  function TableTokens(ctx: Ctx, ls: seq<Line>, bufsz: nat, sym: Symbols): seq<Token>
    requires ValidCtx(ctx) && WellFormed(ls) && bufsz >= 1
    requires HeaderShown(ctx.flags, |ls|) ==> HeadersNamed(ctx)
  {
    var order := if ctx.flags.tree then TreeOrder(ls, |ls|) else FlatOrder(|ls|);
    HeaderTokens(ctx, |ls|, bufsz) + LinesTokens(ctx, ls, order, bufsz, sym)
  }

  lemma MulSucc(a: nat, m: nat)
    ensures a * m + m == (a + 1) * m
  {
  }

  lemma {:induction false} GatherCount(rows: seq<seq<Token>>, order: seq<nat>, t: Token, m: nat)
    requires InRange(order, |rows|)
    requires forall k :: 0 <= k < |order| ==> CountOf(rows[order[k]], t) == m
    ensures CountOf(Gather(rows, order), t) == |order| * m
    decreases |order|
  {
    if |order| > 0 {
      var front := order[..|order| - 1];
      assert forall k :: 0 <= k < |front| ==> front[k] == order[k];
      GatherCount(rows, front, t, m);
      CountOfConcat(Gather(rows, front), rows[order[|order| - 1]], t);
      MulSucc(|front|, m);
    }
  }

  /** In raw and export mode a row holds one newline and n - 1 separators. */
  lemma RawLineCounts(ctx: Ctx, ls: seq<Line>, i: nat, bufsz: nat, sym: Symbols)
    requires ValidCtx(ctx) && WellFormed(ls) && bufsz >= 1 && |ctx.attrs| > 0 && i < |ls|
    requires ctx.flags.raw || ctx.flags.exportMode
    ensures CountOf(LineTokens(ctx, ls, i, bufsz, sym), Newline) == 1
    ensures CountOf(LineTokens(ctx, ls, i, bufsz, sym), Sep) == |ctx.attrs| - 1
  {
    var row := LineRow(ctx, ls, i, bufsz, sym);
    var cells := RowCells(ctx, row, |ctx.attrs|);
    RawRowSeparators(ctx, row, |ctx.attrs|);
    CountOfConcat(cells, [Newline], Newline);
    CountOfConcat(cells, [Newline], Sep);
    assert [Newline][..0] == [];
  }

  /** In raw and export mode the lines hold one newline per line and n - 1
      separators per line of n columns. */
  lemma LinesNewlines(ctx: Ctx, ls: seq<Line>, order: seq<nat>, bufsz: nat, sym: Symbols)
    requires ValidCtx(ctx) && WellFormed(ls) && bufsz >= 1 && |ctx.attrs| > 0
    requires ctx.flags.raw || ctx.flags.exportMode
    requires InRange(order, |ls|)
    ensures CountOf(LinesTokens(ctx, ls, order, bufsz, sym), Newline) == |order|
    ensures CountOf(LinesTokens(ctx, ls, order, bufsz, sym), Sep) == |order| * (|ctx.attrs| - 1)
  {
    var rows := LineOutputs(ctx, ls, |ls|, bufsz, sym);
    forall k | 0 <= k < |order|
      ensures CountOf(rows[order[k]], Newline) == 1 && CountOf(rows[order[k]], Sep) == |ctx.attrs| - 1
    {
      LineOutputsAt(ctx, ls, |ls|, order[k], bufsz, sym);
      RawLineCounts(ctx, ls, order[k], bufsz, sym);
    }
    GatherCount(rows, order, Newline, 1);
    GatherCount(rows, order, Sep, |ctx.attrs| - 1);
  }
}
