/** Reading a formula `lookup(<column>,<row>)` into the address it refers to
    (`extract_ref_col_row`, models.py lines 8-22). */
module Formula {
  import opened Wrappers
  import opened Text
  import opened Cells

  /** What a well-formed formula begins with. */
  const Opening := "lookup("

  /** Python's `value[7:-1]`: everything after the seven-character opening
      and before the last character; empty when the two overlap. */
  function Arguments(value: string): (r: string)
    ensures |value| >= 8 ==> value == value[..7] + r + [value[|value| - 1]]
    ensures |value| < 8 ==> r == ""
  {
    if |value| >= 8 then value[7..|value| - 1] else ""
  }

  /** `extract_ref_col_row`: the opening must be present, the stripped
      arguments must split at commas into exactly two pieces, and the address
      is the two pieces stripped. */
  function ParseRef(value: string): (r: Result<Addr, Error>)
    ensures !StartsWith(value, Opening) ==> r == Err(InvalidFormulaFormat)
    ensures StartsWith(value, Opening) && Count(Arguments(value), ',') != 1 ==> r == Err(InvalidArgumentCount)
    ensures r.Ok? ==> StartsWith(value, Opening) && IsFormulaText(value)
    ensures r.Ok? ==> IsStripped(r.value.col) && IsStripped(r.value.row)
    ensures r.Ok? ==> ',' !in r.value.col && ',' !in r.value.row
  {
    if !StartsWith(value, Opening) then Err(InvalidFormulaFormat)
    else
      assert value[..6] == value[..7][..6];
      var parts := Split(Strip(Arguments(value)), ',');
      VisibleIsNotSpace(',');
      SplitSize(Strip(Arguments(value)), ',');
      StripKeepsCount(Arguments(value), ',');
      if |parts| != 2 then Err(InvalidArgumentCount)
      else
        SplitPiecesAvoidSep(Strip(Arguments(value)), ',');
        StripKeepsCount(parts[0], ',');
        StripKeepsCount(parts[1], ',');
        CountZero(parts[0], ',');
        CountZero(parts[1], ',');
        CountZero(Strip(parts[0]), ',');
        CountZero(Strip(parts[1]), ',');
        Ok(Addr(Strip(parts[0]), Strip(parts[1])))
  }

  /** The source's loop over the pieces, stripping each one in place. */
  method ExtractRefColRow(value: string) returns (r: Result<Addr, Error>)
    ensures r == ParseRef(value)
  {
    if !StartsWith(value, Opening) {
      return Err(InvalidFormulaFormat);
    }
    var parts := Split(Strip(Arguments(value)), ',');
    if |parts| != 2 {
      return Err(InvalidArgumentCount);
    }
    ghost var pieces := parts;
    var i := 0;
    while i < |parts|
      invariant 0 <= i <= |parts| == |pieces|
      invariant forall k :: 0 <= k < i ==> parts[k] == Strip(pieces[k])
      invariant forall k :: i <= k < |parts| ==> parts[k] == pieces[k]
    {
      parts := parts[i := Strip(parts[i])];
      i := i + 1;
    }
    return Ok(Addr(parts[0], parts[1]));
  }

  /** A formula is accepted exactly when it has the opening and its arguments
      hold exactly one comma. */
  lemma ParseRefAccepts(value: string)
    ensures ParseRef(value).Ok? <==> StartsWith(value, Opening) && Count(Arguments(value), ',') == 1
  {
    var args := Arguments(value);
    VisibleIsNotSpace(',');
    SplitSize(Strip(args), ',');
    StripKeepsCount(args, ',');
  }

  /** Whatever else the formula holds, the address is the text before and
      the text after its one comma, each stripped. */
  lemma ParseRefParts(value: string, p0: string, p1: string)
    requires StartsWith(value, Opening)
    requires Arguments(value) == p0 + "," + p1
    requires ',' !in p0 && ',' !in p1
    ensures ParseRef(value) == Ok(Addr(Strip(p0), Strip(p1)))
  {
    VisibleIsNotSpace(',');
    var left, right := TrimLeft(p0), TrimRight(p1);
    assert Arguments(value) == p0 + [','] + p1;
    StripThrough(p0, ',', p1);
    TrimsAvoid(p0, ',');
    TrimsAvoid(p1, ',');
    SplitOfPair(left, right, ',');
    StripOfTrimLeft(p0);
    StripOfTrimRight(p1);
  }

  /** The text of a formula naming `col` and `row`, with optional whitespace
      on either side of the comma. */
  function FormulaText(col: string, row: string, before: string, after: string): (t: string)
    ensures IsFormulaText(t) && StartsWith(t, Opening)
    ensures Arguments(t) == col + before + "," + after + row
  {
    var t := Opening + col + before + "," + after + row + ")";
    assert t[..|Opening|] == Opening;
    assert t[..6] == "lookup";
    assert t[7..|t| - 1] == col + before + "," + after + row;
    t
  }

  /** Whitespace on either side of comma-free text adds no comma. */
  lemma PaddingAddsNoComma(x: string, pad: string)
    requires ',' !in x && AllSpace(pad)
    ensures ',' !in x + pad && ',' !in pad + x
  {
    VisibleIsNotSpace(',');
    CountZero(x, ',');
    CountOfSpaces(pad, ',');
    CountConcat(x, pad, ',');
    CountConcat(pad, x, ',');
    CountZero(x + pad, ',');
    CountZero(pad + x, ',');
  }

  /** The arguments of such a formula are already stripped. */
  lemma ArgumentsStripped(col: string, row: string, before: string, after: string)
    requires col != "" && row != ""
    requires IsStripped(col) && IsStripped(row)
    ensures Strip(col + before + "," + after + row) == col + before + "," + after + row
  {
    var args := col + before + "," + after + row;
    assert args[0] == col[0];
    assert args[|args| - 1] == row[|row| - 1];
    StripOfStripped(args);
  }

  /** The arguments split at their one comma. */
  lemma ArgumentsSplit(col: string, row: string, before: string, after: string)
    requires ',' !in col + before && ',' !in after + row
    ensures Split(col + before + "," + after + row, ',') == [col + before, after + row]
  {
    assert col + before + "," + after + row == (col + before) + [','] + (after + row);
    SplitAfterPiece(col + before, after + row, ',');
    SplitOfPiece(after + row, ',');
  }

  /** Reading a formula back gives the address it was written with, whatever
      whitespace surrounds the comma. */
  lemma ParseRefOfFormulaText(col: string, row: string, before: string, after: string)
    requires col != "" && row != ""
    requires IsStripped(col) && IsStripped(row)
    requires ',' !in col && ',' !in row
    requires AllSpace(before) && AllSpace(after)
    ensures ParseRef(FormulaText(col, row, before, after)) == Ok(Addr(col, row))
  {
    ArgumentsStripped(col, row, before, after);
    PaddingAddsNoComma(col, before);
    PaddingAddsNoComma(row, after);
    ArgumentsSplit(col, row, before, after);
    StripBeforePadding(col, before);
    StripAfterPadding(after, row);
  }

  /** The formula of the nested-lookup scenario, with a space after the comma,
      names column `col1`, row `2`. */
  lemma ParseRefExample()
    ensures ParseRef("lookup(col1, 2)") == Ok(Addr("col1", "2"))
  {
    ExampleText();
    ExampleParts();
    ParseRefOfFormulaText("col1", "2", "", " ");
  }

  lemma ExampleText()
    ensures FormulaText("col1", "2", "", " ") == "lookup(col1, 2)"
  {
  }

  lemma ExampleParts()
    ensures IsStripped("col1") && IsStripped("2") && AllSpace(" ")
  {
    VisibleIsNotSpace('c');
    VisibleIsNotSpace('1');
    VisibleIsNotSpace('2');
  }
}
