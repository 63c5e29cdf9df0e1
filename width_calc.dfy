/**
 * count_column_width: the width fields of one column after a scan of every
 * line, as a function of the fields before the scan. The scan keeps the
 * running maximum, the outlier-excluded working width and, for no-extremes
 * columns, the sum and count of the rows it considered.
 */
module WidthCalc {
  import opened Wrappers
  import opened Mbs
  import opened Model
  import opened TreeArt

  /** The running state of the row scan. */
  datatype Acc = Acc(width: nat, widthMax: nat, sum: nat, count: nat)

  /** What the scan reads from the column and keeps fixed: the extreme flag
      and the cached average as they were before the scan, and the
      no-extremes flag. */
  datatype Mode = Mode(isExtreme: bool, avg: nat, noExtremes: bool)

  /** A row is an outlier of an extreme column when it is more than twice
      the cached average. */
  predicate Outlier(mode: Mode, len: nat)
  {
    mode.isExtreme && len > mode.avg * 2
  }

  /** The measured width of line `k` in a column: 0 for a NULL text and for a
      broken measurement. */
  function RowWidth(ls: seq<Line>, k: nat, a: ColAttrs, seqnum: nat, bufsz: nat, sym: Symbols, m: Routines): nat
    requires WellFormed(ls) && k < |ls| && bufsz >= 1
  {
    match LineData(ls, k, a, seqnum, bufsz, sym)
    case None => 0
    case Some(d) => CellsOrZero(m.safeWidth(d))
  }

  /** The measured widths of every line, in table order. */
  function RowWidths(ls: seq<Line>, a: ColAttrs, seqnum: nat, bufsz: nat, sym: Symbols, m: Routines): (r: seq<nat>)
    requires WellFormed(ls) && bufsz >= 1
    ensures |r| == |ls|
  {
    seq(|ls|, k requires 0 <= k < |ls| => RowWidth(ls, k, a, seqnum, bufsz, sym, m))
  }

  /** The display width of the header, when the header has a text. */
  function HeaderWidth(a: ColAttrs, m: Routines): Option<Width>
  {
    if a.header.data.Some? then Some(m.safeWidth(a.header.data.value)) else None
  }

  /** One iteration of the scan loop over a row of width `len`. */
  function Step(mode: Mode, acc: Acc, len: nat): Acc
  {
    var mx := if len > acc.widthMax then len else acc.widthMax;
    if Outlier(mode, len) then acc.(widthMax := mx)
    else
      var counted := if mode.noExtremes then acc.(sum := acc.sum + len, count := acc.count + 1) else acc;
      counted.(widthMax := mx, width := if len > acc.width then len else acc.width)
  }

  /** The scan over the first `n` rows. */
  function Scan(mode: Mode, init: Acc, rows: seq<nat>, n: nat): Acc
    requires n <= |rows|
  {
    if n == 0 then init else Step(mode, Scan(mode, init, rows, n - 1), rows[n - 1])
  }

  /** The rows (of the first `n`) that are not outliers: the ones the working
      width and the average are taken over. */
  function Kept(mode: Mode, rows: seq<nat>, n: nat): seq<nat>
    requires n <= |rows|
  {
    if n == 0 then []
    else Kept(mode, rows, n - 1) + (if Outlier(mode, rows[n - 1]) then [] else [rows[n - 1]])
  }

  function Sum(xs: seq<nat>): nat
  {
    if |xs| == 0 then 0 else Sum(xs[..|xs| - 1]) + xs[|xs| - 1]
  }

  /** The largest element, 0 for none. */
  function Max(xs: seq<nat>): nat
  {
    if |xs| == 0 then 0
    else var m := Max(xs[..|xs| - 1]); if xs[|xs| - 1] > m then xs[|xs| - 1] else m
  }

  lemma {:induction false} MaxIsMax(xs: seq<nat>)
    ensures forall k :: 0 <= k < |xs| ==> xs[k] <= Max(xs)
    ensures Max(xs) == 0 || exists k :: 0 <= k < |xs| && xs[k] == Max(xs)
  {
    if |xs| > 0 {
      var ys := xs[..|xs| - 1];
      MaxIsMax(ys);
      assert forall k :: 0 <= k < |ys| ==> xs[k] == ys[k];
    }
  }

  /** The scan computes the working width as the largest non-outlier row, the
      maximum as the largest of all rows and the previous maximum, and for a
      no-extremes column the sum and number of the non-outlier rows. */
  lemma ScanMeaning(mode: Mode, init: Acc, rows: seq<nat>, n: nat)
    requires n <= |rows| && init.width == 0 && init.sum == 0 && init.count == 0
    ensures var acc := Scan(mode, init, rows, n);
            && acc.width == Max(Kept(mode, rows, n))
            && acc.widthMax >= init.widthMax
            && (forall k :: 0 <= k < n ==> rows[k] <= acc.widthMax)
            && (acc.widthMax == init.widthMax || exists k :: 0 <= k < n && rows[k] == acc.widthMax)
            && acc.count == (if mode.noExtremes then |Kept(mode, rows, n)| else 0)
            && acc.sum == (if mode.noExtremes then Sum(Kept(mode, rows, n)) else 0)
  {
    ScanKept(mode, init, rows, n);
    ScanMaxGrows(mode, init, rows, n);
    ScanMaxAttained(mode, init, rows, n);
  }

  /** The working width, sum and count are those of the kept rows. */
  lemma ScanKept(mode: Mode, init: Acc, rows: seq<nat>, n: nat)
    requires n <= |rows| && init.width == 0 && init.sum == 0 && init.count == 0
    ensures var acc := Scan(mode, init, rows, n);
            && acc.width == Max(Kept(mode, rows, n))
            && acc.count == (if mode.noExtremes then |Kept(mode, rows, n)| else 0)
            && acc.sum == (if mode.noExtremes then Sum(Kept(mode, rows, n)) else 0)
  {
    ScanKeptWidth(mode, init, rows, n);
    ScanKeptSums(mode, init, rows, n);
  }

  /** The row just scanned is kept exactly when it is not an outlier. */
  lemma KeptSnoc(mode: Mode, rows: seq<nat>, n: nat)
    requires 0 < n <= |rows|
    ensures var ks := Kept(mode, rows, n - 1);
            Kept(mode, rows, n) == if Outlier(mode, rows[n - 1]) then ks else ks + [rows[n - 1]]
  {
    var ks := Kept(mode, rows, n - 1);
    assert ks + [] == ks;
  }

  lemma {:induction false} ScanKeptWidth(mode: Mode, init: Acc, rows: seq<nat>, n: nat)
    requires n <= |rows| && init.width == 0
    ensures Scan(mode, init, rows, n).width == Max(Kept(mode, rows, n))
  {
    if n > 0 {
      ScanKeptWidth(mode, init, rows, n - 1);
      KeptSnoc(mode, rows, n);
      var ks := Kept(mode, rows, n - 1);
      if !Outlier(mode, rows[n - 1]) {
        var ks' := ks + [rows[n - 1]];
        assert ks'[..|ks'| - 1] == ks;
        assert Max(ks') == if rows[n - 1] > Max(ks) then rows[n - 1] else Max(ks);
      }
    }
  }

  lemma {:induction false} ScanKeptSums(mode: Mode, init: Acc, rows: seq<nat>, n: nat)
    requires n <= |rows| && init.sum == 0 && init.count == 0
    ensures var acc := Scan(mode, init, rows, n);
            && acc.count == (if mode.noExtremes then |Kept(mode, rows, n)| else 0)
            && acc.sum == (if mode.noExtremes then Sum(Kept(mode, rows, n)) else 0)
  {
    if n > 0 {
      ScanKeptSums(mode, init, rows, n - 1);
      KeptSnoc(mode, rows, n);
      var ks := Kept(mode, rows, n - 1);
      if !Outlier(mode, rows[n - 1]) {
        var ks' := ks + [rows[n - 1]];
        assert ks'[..|ks'| - 1] == ks;
        assert Sum(ks') == Sum(ks) + rows[n - 1];
      }
    }
  }

  /** The maximum is the previous one or some row's width. */
  lemma {:induction false} ScanMaxAttained(mode: Mode, init: Acc, rows: seq<nat>, n: nat)
    requires n <= |rows|
    ensures var acc := Scan(mode, init, rows, n);
            acc.widthMax == init.widthMax || exists k :: 0 <= k < n && rows[k] == acc.widthMax
  {
    if n > 0 {
      ScanMaxAttained(mode, init, rows, n - 1);
      var prev := Scan(mode, init, rows, n - 1);
      if Scan(mode, init, rows, n).widthMax != prev.widthMax {
        assert rows[n - 1] == Scan(mode, init, rows, n).widthMax;
      } else if prev.widthMax != init.widthMax {
        var k :| 0 <= k < n - 1 && rows[k] == prev.widthMax;
        assert rows[k] == Scan(mode, init, rows, n).widthMax;
      }
    }
  }

  /** The scan's maximum is at least the previous one and every row. */
  lemma {:induction false} ScanMaxGrows(mode: Mode, init: Acc, rows: seq<nat>, n: nat)
    requires n <= |rows|
    ensures Scan(mode, init, rows, n).widthMax >= init.widthMax
    ensures forall k :: 0 <= k < n ==> rows[k] <= Scan(mode, init, rows, n).widthMax
  {
    if n > 0 {
      ScanMaxGrows(mode, init, rows, n - 1);
    }
  }

  /** The floor-and-hint step that ends count_column_width. */
  function Floor(a: ColAttrs, w: nat, wmin: nat): (r: nat)
    ensures r >= w
    ensures !a.strictWidth ==> r >= wmin
    ensures w < wmin && !a.strictWidth ==> r == wmin
    ensures !(w < wmin && !a.strictWidth) && a.hint >= 1.0 && w < a.hint.Floor && wmin < a.hint.Floor ==> r == a.hint.Floor
    ensures r == w || r == wmin || r == a.hint.Floor
  {
    if w < wmin && !a.strictWidth then wmin
    else if a.hint >= 1.0 && w < a.hint.Floor && wmin < a.hint.Floor then a.hint.Floor
    else w
  }

  /** count_column_width on a column whose fields were `st`, over rows of
      widths `rows` and a header measured as `hdr`. */
  function CountWidth(a: ColAttrs, st: ColWidths, rows: seq<nat>, hdr: Option<Width>): (r: ColWidths)
    // the floor: the width is at least the header width unless strict
    ensures !a.strictWidth ==> r.width >= r.widthMin
    // width_min is the measured header width (SIZE_MAX for a broken one)
    ensures hdr.Some? ==> r.widthMin == (if hdr.value.Broken? then SIZE_MAX else hdr.value.n)
    ensures hdr.None? ==> r.widthMin == st.widthMin
    // the maximum only grows
    ensures r.widthMax >= st.widthMax && forall k :: 0 <= k < |rows| ==> rows[k] <= r.widthMax
    // the average is assigned once; the extreme flag is never cleared
    ensures st.widthAvg != 0 ==> r.widthAvg == st.widthAvg
    ensures st.isExtreme ==> r.isExtreme
    ensures r.isExtreme && !st.isExtreme ==> st.widthAvg == 0 && r.widthMax > 2 * r.widthAvg
  {
    var mode := Mode(st.isExtreme, st.widthAvg, a.noExtremes);
    var acc := Scan(mode, Acc(0, st.widthMax, 0, 0), rows, |rows|);
    ScanMaxGrows(mode, Acc(0, st.widthMax, 0, 0), rows, |rows|);
    Settle(a, st.(width := acc.width, widthMax := acc.widthMax), acc.sum, acc.count, hdr)
  }

  /** What count_column_width does after the scan, from the fields `sc` the
      scan left and its sum and count: the average (first time only), the
      extreme flag, the header width and the floor. */
  function Settle(a: ColAttrs, sc: ColWidths, sum: nat, count: nat, hdr: Option<Width>): ColWidths
  {
    var avg := if count > 0 && sc.widthAvg == 0 then sum / count else sc.widthAvg;
    var ext := if count > 0 && sc.widthAvg == 0 && sc.widthMax > avg * 2 then true else sc.isExtreme;
    var wmin := match hdr
      case None => sc.widthMin
      case Some(Broken) => SIZE_MAX
      case Some(Cells(n)) => n;
    ColWidths(Floor(a, sc.width, wmin), wmin, sc.widthMax, avg, ext)
  }

  /** Every kept row is a non-outlier; all of them are 0 when the cached
      average of an extreme column is 0. */
  lemma {:induction false} KeptAreNotOutliers(mode: Mode, rows: seq<nat>, n: nat)
    requires n <= |rows|
    ensures forall x :: x in Kept(mode, rows, n) ==> !Outlier(mode, x)
    ensures mode.isExtreme && mode.avg == 0 ==> Sum(Kept(mode, rows, n)) == 0
  {
    if n > 0 {
      KeptAreNotOutliers(mode, rows, n - 1);
      var ks := Kept(mode, rows, n - 1);
      if !Outlier(mode, rows[n - 1]) {
        assert (ks + [rows[n - 1]])[..|ks|] == ks;
      } else {
        assert ks + [] == ks;
      }
    }
  }

  /** Keeping fewer rows never gives a larger maximum. */
  lemma {:induction false} KeptMaxMonotone(m1: Mode, m2: Mode, rows: seq<nat>, n: nat)
    requires n <= |rows|
    requires forall k :: 0 <= k < n && !Outlier(m2, rows[k]) ==> !Outlier(m1, rows[k])
    ensures Max(Kept(m2, rows, n)) <= Max(Kept(m1, rows, n))
  {
    if n > 0 {
      KeptMaxMonotone(m1, m2, rows, n - 1);
      var k1 := Kept(m1, rows, n - 1);
      var k2 := Kept(m2, rows, n - 1);
      var x := rows[n - 1];
      if !Outlier(m1, x) { assert (k1 + [x])[..|k1|] == k1; } else { assert k1 + [] == k1; }
      if !Outlier(m2, x) { assert (k2 + [x])[..|k2|] == k2; } else { assert k2 + [] == k2; }
    }
  }

  /** The whole computation, stated without the scan: the working width is
      the floor of the widest non-outlier row, and an average assigned by
      this call is the mean of the non-outlier rows. */
  lemma CountWidthMeaning(a: ColAttrs, st: ColWidths, rows: seq<nat>, hdr: Option<Width>)
    ensures var mode := Mode(st.isExtreme, st.widthAvg, a.noExtremes);
            var kept := Kept(mode, rows, |rows|);
            var r := CountWidth(a, st, rows, hdr);
            && r.width == Floor(a, Max(kept), r.widthMin)
            && (a.noExtremes && |kept| > 0 && st.widthAvg == 0 ==> r.widthAvg == Sum(kept) / |kept|)
            && (!(a.noExtremes && |kept| > 0 && st.widthAvg == 0) ==> r.widthAvg == st.widthAvg && r.isExtreme == st.isExtreme)
            && (a.noExtremes && |kept| > 0 && st.widthAvg == 0 ==> r.isExtreme == (st.isExtreme || r.widthMax > 2 * r.widthAvg))
  {
    var mode := Mode(st.isExtreme, st.widthAvg, a.noExtremes);
    ScanMeaning(mode, Acc(0, st.widthMax, 0, 0), rows, |rows|);
  }

  /** Re-running the calculation changes nothing once the average and the
      extreme flag have settled. */
  lemma CountWidthIdempotent(a: ColAttrs, st: ColWidths, rows: seq<nat>, hdr: Option<Width>)
    requires CountWidth(a, st, rows, hdr).isExtreme == st.isExtreme
    requires CountWidth(a, st, rows, hdr).widthAvg == st.widthAvg
    ensures CountWidth(a, CountWidth(a, st, rows, hdr), rows, hdr) == CountWidth(a, st, rows, hdr)
  {
    var r1 := CountWidth(a, st, rows, hdr);
    var mode := Mode(st.isExtreme, st.widthAvg, a.noExtremes);
    ScanMeaning(mode, Acc(0, st.widthMax, 0, 0), rows, |rows|);
    ScanMeaning(mode, Acc(0, r1.widthMax, 0, 0), rows, |rows|);
    CountWidthMeaning(a, st, rows, hdr);
    CountWidthMeaning(a, r1, rows, hdr);
  }

  /** A row that is an outlier before a pass is still one after it. */
  lemma {:induction false} OutliersPersist(a: ColAttrs, st: ColWidths, rows: seq<nat>, hdr: Option<Width>, len: nat)
    requires Outlier(Mode(st.isExtreme, st.widthAvg, a.noExtremes), len)
    ensures var r1 := CountWidth(a, st, rows, hdr);
            Outlier(Mode(r1.isExtreme, r1.widthAvg, a.noExtremes), len)
  {
    var r1 := CountWidth(a, st, rows, hdr);
    if st.widthAvg == 0 {
      var m1 := Mode(st.isExtreme, st.widthAvg, a.noExtremes);
      var kept := Kept(m1, rows, |rows|);
      KeptAreNotOutliers(m1, rows, |rows|);
      CountWidthMeaning(a, st, rows, hdr);
      assert Sum(kept) == 0;
      if a.noExtremes && |kept| > 0 {
        assert r1.widthAvg == 0 / |kept| == 0;
      }
    }
  }

  /** The second pass recount_widths runs on an extreme column never makes it
      wider: it excludes at least the rows the first pass excluded. */
  lemma {:induction false} SecondPassNoWider(a: ColAttrs, st: ColWidths, rows: seq<nat>, hdr: Option<Width>)
    ensures CountWidth(a, CountWidth(a, st, rows, hdr), rows, hdr).width <= CountWidth(a, st, rows, hdr).width
    ensures CountWidth(a, CountWidth(a, st, rows, hdr), rows, hdr).widthMin == CountWidth(a, st, rows, hdr).widthMin
  {
    var r1 := CountWidth(a, st, rows, hdr);
    var m1 := Mode(st.isExtreme, st.widthAvg, a.noExtremes);
    var m2 := Mode(r1.isExtreme, r1.widthAvg, a.noExtremes);
    forall k | 0 <= k < |rows| && !Outlier(m2, rows[k])
      ensures !Outlier(m1, rows[k])
    {
      if Outlier(m1, rows[k]) {
        OutliersPersist(a, st, rows, hdr, rows[k]);
      }
    }
    KeptMaxMonotone(m1, m2, rows, |rows|);
    CountWidthMeaning(a, st, rows, hdr);
    CountWidthMeaning(a, r1, rows, hdr);
    FloorMonotone(a, Max(Kept(m2, rows, |rows|)), Max(Kept(m1, rows, |rows|)), r1.widthMin);
  }

  lemma FloorMonotone(a: ColAttrs, w1: nat, w2: nat, wmin: nat)
    requires w1 <= w2
    ensures Floor(a, w1, wmin) <= Floor(a, w2, wmin)
  {
  }
}
