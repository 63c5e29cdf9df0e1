/**
 * The data the printer reads: cells, lines kept in an arena (a line refers to
 * its parent and to its children by index), the tree symbols, the column
 * attributes and the per-print width fields of a column.
 */
module Model {
  import opened Wrappers

  /** A cell: its text (NULL when absent) and its colour override. */
  datatype Cell = Cell(data: Option<string>, color: Option<string>)

  /** A line: its cells (index-aligned with the columns), its parent, its
      ordered children and its colour. */
  datatype Line = Line(cells: seq<Cell>, parent: Option<nat>, children: seq<nat>, color: Option<string>)

  /** The three tree glyphs, opaque strings: vertical continuation, branch and
      last branch ("right"). */
  datatype Symbols = Symbols(vert: string, branch: string, right: string)

  /** What a column is: its header cell, colour, size hint and style flags. */
  datatype ColAttrs = ColAttrs(
    header: Cell,
    color: Option<string>,
    hint: real,
    trunc: bool,
    right: bool,
    tree: bool,
    noExtremes: bool,
    strictWidth: bool)

  /** The width fields of a column, recomputed on every print except
      widthAvg and isExtreme, which are cached across prints. */
  datatype ColWidths = ColWidths(width: nat, widthMin: nat, widthMax: nat, widthAvg: nat, isExtreme: bool)

  /** The table flags that select the output. */
  datatype Flags = Flags(raw: bool, exportMode: bool, tree: bool, noHeadings: bool, colors: bool, maxout: bool)

  /** scols_line_get_cell: NULL past the line's last cell. */
  function GetCell(ln: Line, n: nat): Option<Cell>
  {
    if n < |ln.cells| then Some(ln.cells[n]) else None
  }

  /** The text of a cell that may be missing. */
  function CellData(ce: Option<Cell>): Option<string>
  {
    if ce.Some? then ce.value.data else None
  }

  /** Every index in the arena is in range. */
  predicate WellFormed(ls: seq<Line>)
  {
    && (forall i :: 0 <= i < |ls| && ls[i].parent.Some? ==> ls[i].parent.value < |ls|)
    && (forall p, k :: 0 <= p < |ls| && 0 <= k < |ls[p].children| ==> ls[p].children[k] < |ls|)
  }

  /** The arena is consistent: a child lists its parent exactly when the
      parent lists the child. */
  predicate Linked(ls: seq<Line>)
    requires WellFormed(ls)
  {
    && (forall i :: 0 <= i < |ls| && ls[i].parent.Some? ==> i in ls[ls[i].parent.value].children)
    && (forall p, k :: 0 <= p < |ls| && 0 <= k < |ls[p].children| ==> ls[ls[p].children[k]].parent == Some(p))
  }

  /** list_entry_is_last on the parent's child list. */
  predicate IsLastChild(ls: seq<Line>, i: nat)
    requires WellFormed(ls) && i < |ls|
  {
    ls[i].parent.Some? &&
    var sib := ls[ls[i].parent.value].children;
    |sib| > 0 && sib[|sib| - 1] == i
  }

  /** The ancestry of line `i`, root first, ending with `i`; None when the
      parent chain is longer than `fuel`. */
  function Path(ls: seq<Line>, i: nat, fuel: nat): (r: Option<seq<nat>>)
    requires WellFormed(ls) && i < |ls|
    ensures r.Some? ==> |r.value| >= 1 && r.value[|r.value| - 1] == i
    ensures r.Some? ==> forall k :: 0 <= k < |r.value| ==> r.value[k] < |ls|
    ensures r.Some? ==> ls[r.value[0]].parent.None?
    ensures r.Some? ==> forall k :: 0 < k < |r.value| ==> ls[r.value[k]].parent == Some(r.value[k - 1])
    decreases fuel
  {
    match ls[i].parent
    case None => Some([i])
    case Some(p) =>
      if fuel == 0 then None
      else match Path(ls, p, fuel - 1)
        case None => None
        case Some(q) => Some(q + [i])
  }

  /** No parent chain loops: every line reaches a root in at most |ls| steps. */
  predicate Acyclic(ls: seq<Line>)
    requires WellFormed(ls)
  {
    forall i :: 0 <= i < |ls| ==> Path(ls, i, |ls|).Some?
  }
}
