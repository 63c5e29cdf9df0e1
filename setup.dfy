/**
 * The arithmetic scols_print_table does before printing: the target width
 * (the terminal's, or 80, less the reserved margin, in size_t), and the size
 * of the scratch buffer, which must hold the longest line's text.
 */
module Setup {
  import opened Wrappers
  import opened Mbs
  import opened Model
  import opened TreeArt

  /** The width used when the output is not a terminal or its width is
      unknown. */
  const DEFAULT_WIDTH: nat := 80

  /** The error code for a buffer that could not be allocated. */
  const ENOMEM: int := 12

  /** tb->termwidth: the queried width on a terminal, 80 when that is 0 or
      the output is not a terminal, less termreduce with size_t wrap-around. */
  function TermWidth(isTerm: bool, query: nat, termreduce: nat): (tw: nat)
    requires query <= SIZE_MAX && termreduce <= SIZE_MAX
    ensures tw <= SIZE_MAX
    ensures termreduce <= (if isTerm && query > 0 then query else DEFAULT_WIDTH) ==>
              tw == (if isTerm && query > 0 then query else DEFAULT_WIDTH) - termreduce
  {
    var w := if isTerm && query > 0 then query else DEFAULT_WIDTH;
    (w - termreduce) % (SIZE_MAX + 1)
  }

  /** A margin wider than the width wraps to a huge target. */
  lemma TermWidthWraps()
    ensures TermWidth(false, 0, 81) == SIZE_MAX
  {
  }

  /** strlen_line: the bytes of every cell's text, the cells without text
      counting 0. */
  function LineBytes(ln: Line): nat
  {
    CellBytes(ln, |ln.cells|)
  }

  /** The bytes of the first n cells. */
  function CellBytes(ln: Line, n: nat): nat
    requires n <= |ln.cells|
  {
    if n == 0 then 0
    else CellBytes(ln, n - 1) + (match ln.cells[n - 1].data case None => 0 case Some(d) => |d|)
  }

  /** No cell has more bytes than its line. */
  lemma {:induction false} CellWithinLine(ln: Line, n: nat, c: nat)
    requires c < n <= |ln.cells|
    ensures ln.cells[c].data.Some? ==> |ln.cells[c].data.value| <= CellBytes(ln, n)
  {
    if c < n - 1 {
      CellWithinLine(ln, n - 1, c);
    }
  }

  /** The longest line of the first n, in bytes, or `floor` if larger. */
  function LongestLine(ls: seq<Line>, n: nat, floor: nat): nat
    requires n <= |ls|
  {
    if n == 0 then floor
    else var m := LongestLine(ls, n - 1, floor); if LineBytes(ls[n - 1]) > m then LineBytes(ls[n - 1]) else m
  }

  /** line_sz: room for the target width or the longest line, and the
      terminating NUL. */
  function LineSize(ls: seq<Line>, tw: nat): nat
  {
    LongestLine(ls, |ls|, tw) + 1
  }

  /** The buffer is longer than the target width and than every line. */
  lemma {:induction false} LongestLineBounds(ls: seq<Line>, n: nat, floor: nat)
    requires n <= |ls|
    ensures LongestLine(ls, n, floor) >= floor
    ensures forall k :: 0 <= k < n ==> LineBytes(ls[k]) <= LongestLine(ls, n, floor)
  {
    if n > 0 {
      LongestLineBounds(ls, n - 1, floor);
    }
  }

  /** Because the buffer holds the longest line, line_get_data never cuts the
      text of a column that is not the tree column. */
  lemma NonTreeDataUncut(ls: seq<Line>, i: nat, col: ColAttrs, c: nat, tw: nat, sym: Symbols)
    requires WellFormed(ls) && i < |ls| && !col.tree
    ensures LineData(ls, i, col, c, LineSize(ls, tw), sym) == CellData(GetCell(ls[i], c))
  {
    LongestLineBounds(ls, |ls|, tw);
    if c < |ls[i].cells| {
      CellWithinLine(ls[i], |ls[i].cells|, c);
    }
  }
}
