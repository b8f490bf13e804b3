/**
 * The per-cell rules of the cleaning functions. A rule reached through the
 * `.str` accessor turns every cell that is not a string into a missing value,
 * as pandas does; a rule applied with `.apply(lambda ...)` leaves such cells
 * alone.
 */
module Cells {
  import opened Wrappers
  import opened Text
  import opened Numeric
  import opened Tables

  /** A cell an identifier column may hold after `.str.lower()`. */
  predicate IsLowerCell(v: Value) {
    v.Missing? || (v.Str? && NoUpper(v.s))
  }

  /** `.str.lower()` on one cell. */
  function LowerCell(v: Value): (w: Value)
    ensures IsLowerCell(w)
    ensures !v.Str? ==> w == Missing
    ensures v.Str? ==> w.Str? && w.s == Lower(v.s)
    ensures IsLowerCell(v) ==> w == v
  {
    if v.Str? then Str(Lower(v.s)) else Missing
  }

  /** `.str.title()` on one cell. */
  function TitleCell(v: Value): (w: Value)
    ensures !v.Str? ==> w == Missing
    ensures v.Str? ==> w.Str? && w.s == Title(v.s) && |w.s| == |v.s|
  {
    if v.Str? then Str(Title(v.s)) else Missing
  }

  /** `.str.replace(r'\d+$', '', regex=True).str.capitalize()` on one cell. */
  function NameCell(v: Value): (w: Value)
    ensures !v.Str? ==> w == Missing
    ensures v.Str? ==> w.Str? && w.s == CleanName(v.s)
    ensures v.Str? && '\n' !in v.s ==> !EndsInDigits(w.s)
  {
    if v.Str? then Str(CleanName(v.s)) else Missing
  }

  /** `.str.strip().str.title()` on one cell. */
  function PlaceCell(v: Value): (w: Value)
    ensures !v.Str? ==> w == Missing
    ensures v.Str? ==> w.Str? && w.s == Title(Strip(v.s))
  {
    if v.Str? then Str(Title(Strip(v.s))) else Missing
  }

  /**
   * The county rule on one cell: a string ending in `County` loses the suffix
   * and is stripped; any other string, and any non-string, is kept.
   */
  function CountyCell(v: Value): (w: Value)
    ensures !v.Str? ==> w == v
    ensures v.Str? && EndsWith(v.s, "County") ==> w == Str(Strip(v.s[..|v.s| - 6]))
    ensures v.Str? && !EndsWith(v.s, "County") ==> w == v
  {
    if v.Str? then Str(StripCountySuffix(v.s)) else v
  }

  /** The latitude rule on one cell: a string loses its leading apostrophes; a non-string is kept. */
  function LatitudeCell(v: Value): (w: Value)
    ensures !v.Str? ==> w == v
    ensures v.Str? ==> w.Str? && |w.s| <= |v.s| && (w.s == [] || w.s[0] != '\'') && w.s == v.s[|v.s| - |w.s|..]
    ensures v.Str? ==> forall k :: 0 <= k < |v.s| - |w.s| ==> v.s[k] == '\''
  {
    if v.Str? then Str(TrimStart(v.s, IsApostrophe)) else v
  }

  /** The integers pandas holds as integers: the int64 range, and the uint64 range above it. */
  predicate InIntRange(n: int) {
    -0x8000_0000_0000_0000 <= n <= 0xFFFF_FFFF_FFFF_FFFF
  }

  /**
   * `pd.to_numeric(x, errors='coerce', downcast='integer')` on one cell: a
   * string holding an integer literal in the int64 or uint64 range becomes
   * that integer, one outside it becomes a float (`Other`), and any other
   * string becomes missing; a number (an integer, or a float held as `Other`)
   * and a missing value are kept. It never fails, and no string is left.
   */
  function CoerceIntCell(v: Value): (w: Value)
    ensures !w.Str?
    ensures !v.Str? ==> w == v
    ensures v.Str? ==> (w.Int? <==> ParseInt(v.s).Some? && InIntRange(ParseInt(v.s).value))
    ensures v.Str? && w.Int? ==> ParseInt(v.s) == Some(w.i)
    ensures v.Str? && ParseInt(v.s).None? ==> w == Missing
    ensures v.Str? && ParseInt(v.s).Some? && !InIntRange(ParseInt(v.s).value) ==> w == Other
  {
    match v
    case Str(s) => (match ParseInt(s) case Some(n) => if InIntRange(n) then Int(n) else Other case None => Missing)
    case _ => v
  }

  /**
   * What the model knows of a conversion it does not compute: it never leaves
   * a string, and a missing value stays missing.
   */
  ghost predicate Converts(f: Value -> Value) {
    f(Missing) == Missing && forall v :: !f(v).Str?
  }

  type Conversion = f: Value -> Value | Converts(f) witness (v: Value) => Missing

  /**
   * `pd.to_datetime(x, errors='coerce')` on one cell, possibly followed by
   * `tz_localize(None)`: a timestamp, or NaT (missing) for what does not parse.
   * The model fixes no more of it than `Conversion` says, so no cell fact about
   * a date column depends on how dates are parsed.
   */
  const ToDate: Conversion

  /**
   * `pd.to_numeric(x, errors='coerce')` on one cell, with or without
   * `downcast='float'`: a number, or NaN (missing) for what does not parse.
   * As with `ToDate`, only what `Conversion` says is known of it.
   */
  const ToNumber: Conversion

  /** Lower-casing a cell before title-casing it changes nothing. */
  lemma TitleCellOfLower()
    ensures forall v :: TitleCell(LowerCell(v)) == TitleCell(v)
  {
    forall v ensures TitleCell(LowerCell(v)) == TitleCell(v) {
      if v.Str? {
        TitleOfLower(v.s);
      }
    }
  }

  lemma CoerceIntExamples()
    ensures CoerceIntCell(Str("30")) == Int(30)
    ensures CoerceIntCell(Str("n/a")) == Missing
    ensures CoerceIntCell(Missing) == Missing
    ensures CoerceIntCell(Other) == Other
  {
    assert DigitsValue("3") == 3;
    assert DigitsValue("30") == 30 by { assert "30"[..1] == "3"; }
    assert !IsDigit("n/a"[0]);
  }

  /** The integer literals just past either end of the uint64/int64 range become floats. */
  lemma CoerceIntOutOfRange()
    ensures CoerceIntCell(Str(IntToString(0x1_0000_0000_0000_0000))) == Other
    ensures CoerceIntCell(Str(IntToString(-0x8000_0000_0000_0001))) == Other
  {
    ParseIntRoundTrip(0x1_0000_0000_0000_0000);
    ParseIntRoundTrip(-0x8000_0000_0000_0001);
  }
}
