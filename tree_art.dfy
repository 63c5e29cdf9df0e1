/**
 * The text a line shows in a column (line_get_data), including the tree
 * ancestry prefix (line_get_ascii_art). The shared scratch buffer of `room`
 * bytes is modelled by the string it ends up holding.
 */
module TreeArt {
  import opened Wrappers
  import opened Model

  /** The segment an ancestor contributes: two blanks below a last child,
      the vertical glyph otherwise. */
  function Segment(ls: seq<Line>, x: nat, sym: Symbols): string
    requires WellFormed(ls) && x < |ls|
  {
    if IsLastChild(ls, x) then "  " else sym.vert
  }

  /** The segments of a run of lines, in order. */
  function Segs(ls: seq<Line>, xs: seq<nat>, sym: Symbols): string
    requires WellFormed(ls)
    requires forall k :: 0 <= k < |xs| ==> xs[k] < |ls|
  {
    if |xs| == 0 then ""
    else Segs(ls, xs[..|xs| - 1], sym) + Segment(ls, xs[|xs| - 1], sym)
  }

  /** The connector in front of a line's own text: none for a root, the last
      branch for a last child, the branch otherwise. */
  function Connector(ls: seq<Line>, i: nat, sym: Symbols): string
    requires WellFormed(ls) && i < |ls|
  {
    if ls[i].parent.None? then ""
    else if IsLastChild(ls, i) then sym.right
    else sym.branch
  }

  /** The at most `n` first bytes of `s` (strncpy plus the terminator at n). */
  function Prefix(s: string, n: nat): (r: string)
    ensures |r| <= n && r <= s
    ensures |s| <= n ==> r == s
  {
    if |s| <= n then s else s[..n]
  }

  /** line_get_ascii_art for line `i` into `room` free bytes: the bytes
      written and the room left, or None when a segment does not fit. A
      segment must leave room for the terminator (see AsciiArtAsWritten). */
  function AsciiArt(ls: seq<Line>, i: nat, room: nat, sym: Symbols, fuel: nat): (r: Option<(string, nat)>)
    requires WellFormed(ls) && i < |ls|
    ensures r.Some? ==> |r.value.0| + r.value.1 == room
    ensures r.Some? && room >= 1 ==> r.value.1 >= 1
    decreases fuel
  {
    match ls[i].parent
    case None => Some(("", room))
    case Some(p) =>
      if fuel == 0 then None
      else match AsciiArt(ls, p, room, sym, fuel - 1)
        case None => None
        case Some(acc) =>
          var art := Segment(ls, i, sym);
          if acc.1 <= |art| then None
          else Some((acc.0 + art, acc.1 - |art|))
  }

  /** line_get_ascii_art exactly as written: it accepts a segment that fills
      the remaining room. */
  function AsciiArtAsWritten(ls: seq<Line>, i: nat, room: nat, sym: Symbols, fuel: nat): (r: Option<(string, nat)>)
    requires WellFormed(ls) && i < |ls|
    ensures r.Some? ==> |r.value.0| + r.value.1 == room
    decreases fuel
  {
    match ls[i].parent
    case None => Some(("", room))
    case Some(p) =>
      if fuel == 0 then None
      else match AsciiArtAsWritten(ls, p, room, sym, fuel - 1)
        case None => None
        case Some(acc) =>
          var art := Segment(ls, i, sym);
          if acc.1 < |art| then None
          else Some((acc.0 + art, acc.1 - |art|))
  }

  /** line_get_data: the text line `i` shows in the column at `seqnum`, with
      a buffer of `bufsz` bytes; None for a NULL result. */
  function LineData(ls: seq<Line>, i: nat, col: ColAttrs, seqnum: nat, bufsz: nat, sym: Symbols): (r: Option<string>)
    requires WellFormed(ls) && i < |ls| && bufsz >= 1
    ensures r.Some? ==> |r.value| < bufsz
    ensures CellData(GetCell(ls[i], seqnum)).None? ==> r.None?
  {
    var data := CellData(GetCell(ls[i], seqnum));
    if data.None? then None
    else if !col.tree || ls[i].parent.None? then Some(Prefix(data.value, bufsz - 1))
    else match AsciiArt(ls, ls[i].parent.value, bufsz, sym, |ls|)
      case None => None
      case Some(acc) => Some(acc.0 + Prefix(Connector(ls, i, sym) + data.value, acc.1 - 1))
  }

  /** The tree text of line `i`: one segment per non-root ancestor, root
      side first, then the line's connector, then the data. */
  function TreeText(ls: seq<Line>, i: nat, data: string, sym: Symbols): string
    requires WellFormed(ls) && Acyclic(ls) && i < |ls|
  {
    match ls[i].parent
    case None => data
    case Some(p) => Segs(ls, Path(ls, p, |ls|).value[1..], sym) + Connector(ls, i, sym) + data
  }

  /** The prefix AsciiArt builds is the segments of the ancestry path below
      the root, and it is built exactly when it leaves room for the
      terminator. */
  lemma {:induction false} AsciiArtIsPathSegments(ls: seq<Line>, i: nat, room: nat, sym: Symbols, fuel: nat)
    requires WellFormed(ls) && i < |ls|
    ensures var r := AsciiArt(ls, i, room, sym, fuel);
            var p := Path(ls, i, fuel);
            && (r.Some? <==> p.Some? && (|p.value| == 1 || |Segs(ls, p.value[1..], sym)| < room))
            && (r.Some? ==> r.value.0 == Segs(ls, p.value[1..], sym))
    decreases fuel
  {
    match ls[i].parent
    case None =>
      assert Path(ls, i, fuel) == Some([i]);
      assert [i][1..] == [];
    case Some(p) =>
      if fuel > 0 {
        AsciiArtIsPathSegments(ls, p, room, sym, fuel - 1);
        var q := Path(ls, p, fuel - 1);
        var rp := AsciiArt(ls, p, room, sym, fuel - 1);
        if q.Some? {
          var path := q.value + [i];
          assert Path(ls, i, fuel) == Some(path);
          SegsSnoc(ls, q.value, i, sym);
          if rp.Some? {
            assert rp.value.1 == room - |Segs(ls, q.value[1..], sym)|;
          }
        }
      }
  }

  /** Appending a line to a path appends its segment. */
  lemma SegsSnoc(ls: seq<Line>, q: seq<nat>, i: nat, sym: Symbols)
    requires WellFormed(ls) && |q| >= 1 && i < |ls|
    requires forall k :: 0 <= k < |q| ==> q[k] < |ls|
    ensures var path := q + [i];
            forall k :: 0 <= k < |path[1..]| ==> path[1..][k] < |ls|
    ensures Segs(ls, (q + [i])[1..], sym) == Segs(ls, q[1..], sym) + Segment(ls, i, sym)
  {
    var path := q + [i];
    assert path[1..] == q[1..] + [i];
    assert path[1..][..|path[1..]| - 1] == q[1..];
  }

  /** line_get_data on a tree column: a root shows its data, a child its
      tree text, both cut to the buffer; a child whose ancestry prefix does
      not leave room for the terminator shows nothing. */
  lemma TreeLineData(ls: seq<Line>, i: nat, col: ColAttrs, seqnum: nat, bufsz: nat, sym: Symbols)
    requires WellFormed(ls) && Acyclic(ls) && i < |ls| && bufsz >= 1 && col.tree
    requires CellData(GetCell(ls[i], seqnum)).Some?
    ensures var d := CellData(GetCell(ls[i], seqnum)).value;
            var r := LineData(ls, i, col, seqnum, bufsz, sym);
            && (ls[i].parent.None? ==> r == Some(Prefix(d, bufsz - 1)))
            && (ls[i].parent.Some? ==>
                  var path := Path(ls, ls[i].parent.value, |ls|).value;
                  (r.Some? <==> |path| == 1 || |Segs(ls, path[1..], sym)| < bufsz))
            && (r.Some? ==> r.value == Prefix(TreeText(ls, i, d, sym), bufsz - 1))
  {
    var d := CellData(GetCell(ls[i], seqnum)).value;
    if ls[i].parent.Some? {
      var p := ls[i].parent.value;
      AsciiArtIsPathSegments(ls, p, bufsz, sym, |ls|);
      var r := AsciiArt(ls, p, bufsz, sym, |ls|);
      if r.Some? {
        var pre := r.value.0;
        var x := Connector(ls, i, sym) + d;
        assert TreeText(ls, i, d, sym) == pre + x;
        if |pre + x| > bufsz - 1 {
          assert (pre + x)[..bufsz - 1] == pre + x[..r.value.1 - 1];
        }
      }
    }
  }

  /** With a buffer larger than the tree text, a line shows its whole tree
      text. */
  lemma TreeLineDataFits(ls: seq<Line>, i: nat, col: ColAttrs, seqnum: nat, bufsz: nat, sym: Symbols)
    requires WellFormed(ls) && Acyclic(ls) && i < |ls| && bufsz >= 1 && col.tree
    requires CellData(GetCell(ls[i], seqnum)).Some?
    requires |TreeText(ls, i, CellData(GetCell(ls[i], seqnum)).value, sym)| < bufsz
    ensures LineData(ls, i, col, seqnum, bufsz, sym) == Some(TreeText(ls, i, CellData(GetCell(ls[i], seqnum)).value, sym))
  {
    TreeLineData(ls, i, col, seqnum, bufsz, sym);
    if ls[i].parent.Some? {
      var path := Path(ls, ls[i].parent.value, |ls|).value;
      var d := CellData(GetCell(ls[i], seqnum)).value;
      assert |Segs(ls, path[1..], sym)| <= |TreeText(ls, i, d, sym)|;
    }
  }

  /** The corrected ascii art is the as-written one with the single
      difference the finding names: where the C code fills the buffer to its
      last byte, leaving no room for the terminator, the corrected one
      reports that the art does not fit. */
  lemma {:induction false} AsciiArtAgrees(ls: seq<Line>, i: nat, room: nat, sym: Symbols, fuel: nat)
    requires WellFormed(ls) && i < |ls| && room >= 1
    ensures var w := AsciiArtAsWritten(ls, i, room, sym, fuel);
            AsciiArt(ls, i, room, sym, fuel) == (if w.Some? && w.value.1 == 0 then None else w)
    decreases fuel
  {
    match ls[i].parent
    case None =>
    case Some(p) =>
      if fuel > 0 {
        AsciiArtAgrees(ls, p, room, sym, fuel - 1);
      }
  }

  /** The C function fills the buffer to its last byte for a grandchild
      whose parent is a last child when the buffer has two bytes: nothing
      is left for the terminator. */
  lemma AsciiArtAsWrittenLeavesNoTerminator()
    ensures var ls := [Line([], None, [1], None), Line([], Some(0), [2], None), Line([], Some(1), [], None)];
            && WellFormed(ls)
            && AsciiArtAsWritten(ls, 1, 2, Symbols("| ", "|-", "`-"), 3) == Some(("  ", 0))
            && AsciiArt(ls, 1, 2, Symbols("| ", "|-", "`-"), 3) == None
  {
    var ls := [Line([], None, [1], None), Line([], Some(0), [2], None), Line([], Some(1), [], None)];
    var sym := Symbols("| ", "|-", "`-");
    assert WellFormed(ls);
    assert IsLastChild(ls, 1);
    assert Segment(ls, 1, sym) == "  ";
    assert AsciiArtAsWritten(ls, 0, 2, sym, 2) == Some(("", 2));
    assert AsciiArt(ls, 0, 2, sym, 2) == Some(("", 2));
    assert "" + "  " == "  ";
    assert AsciiArtAsWritten(ls, 1, 2, sym, 3) == Some(("  ", 0));
  }
}
