/**
 * The multibyte width routines of mbsalign (mbs_safe_width, mbs_safe_encode,
 * mbs_truncate). They are not part of this model: the core receives them as
 * a record of functions, and relies only on the contract stated by Sound.
 */
module Mbs {
  /** The largest size_t value, which is also the `(size_t) -1` sentinel. */
  const SIZE_MAX: nat := 0xFFFF_FFFF_FFFF_FFFF

  /** A display-width measurement; Broken is the `(size_t) -1` failure sentinel. */
  datatype Width = Broken | Cells(n: nat)

  /** mbs_safe_encode: the escaped copy of a string and its display width, or
      a NULL buffer. */
  datatype Encoded = EncodeFailed | Encoded(text: string, width: Width)

  /** mbs_truncate: the string cut to fit, with the display width it now has;
      the byte count the C routine returns is the length of `text`. */
  datatype Truncated = TruncateFailed | Truncated(text: string, width: nat)

  datatype Routines = Routines(
    safeWidth: string -> Width,
    safeEncode: string -> Encoded,
    truncate: (string, nat) -> Truncated)

  /** What the core relies on: a truncation to `w` cells yields at most `w`
      cells, and never more cells than bytes. */
  ghost predicate Sound(r: Routines)
  {
    forall s: string, w: nat ::
      r.truncate(s, w).Truncated? ==>
        r.truncate(s, w).width <= w && r.truncate(s, w).width <= |r.truncate(s, w).text|
  }

  /** The rule every caller applies: a broken measurement counts as 0 cells. */
  function CellsOrZero(w: Width): nat
  {
    match w
    case Broken => 0
    case Cells(k) => k
  }
}
