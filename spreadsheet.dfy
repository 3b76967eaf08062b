/** The `Spreadsheet` record (models.py lines 25-130): a schema and a cell
    store that `set_cell` updates in place, the two reference walks, and the
    flat and resolved views of the whole sheet. */
module Sheets {
  import opened Wrappers
  import opened Text
  import opened Cells
  import opened Formula
  import opened Chains

  class Spreadsheet {
    var schema: Schema
    var data: Data
    /** The reference graph of `data`; kept in step with it by `SetCell`. */
    ghost var Links: Links
    /** A ranking that falls along every reference, witnessing acyclicity. */
    ghost var Rank: Ranking

    ghost predicate Valid()
      reads this
    {
      SheetInv(schema, data, Links, Rank)
    }

    /** A new sheet: the given columns and no cells. */
    constructor(columns: Schema)
      ensures Valid()
      ensures schema == columns && data == map[]
    {
      schema := columns;
      data := map[];
      Links := map[];
      Rank := a => 0;
    }

    /** `__update`: create the column's row map when it is missing, then
        store `value` under the key `str(row)`. */
    method Update(col: string, row: int, value: Value)
      modifies this`data
      ensures data == Written(old(data), col, IntToString(row), value)
    {
      if col !in data {
        data := data[col := map[]];
      }
      data := data[col := data[col][IntToString(row) := value]];
    }

    /** The walk of `set_cell` (lines 91-96): follow the references from
        `ref` and report whether one of them names the cell being written. */
    method CycleWalk(col: string, row: int, ref: Addr) returns (cyclic: bool)
      requires Valid() && Stored(data, ref)
      requires ref != Addr(col, IntToString(row))
      ensures cyclic == Reaches(Links, Rank, ref, Addr(col, IntToString(row)))
    {
      ghost var w := Addr(col, IntToString(row));
      assert IsColumnExist(schema, ref.col);
      var cellValue := GetCellValue(schema, data, ref.col, ref.row).value;
      ghost var cur := ref;
      while IsFormulaText(cellValue)
        invariant Stored(data, cur) && cellValue == Render(At(data, cur))
        invariant cur != w
        invariant Reaches(Links, Rank, ref, w) == Reaches(Links, Rank, cur, w)
        decreases Rank(cur)
      {
        assert CellInv(schema, data, Links, cur);
        var parsed := ExtractRefColRow(cellValue);
        var next := parsed.value;
        if next.col == col && next.row == IntToString(row) {
          return true;
        }
        assert IsColumnExist(schema, next.col);
        cellValue := GetCellValue(schema, data, next.col, next.row).value;
        cur := next;
      }
      assert CellInv(schema, data, Links, cur);
      return false;
    }

    /** The formula branch of `set_cell` (lines 66-96): parse the formula,
        check its target, then walk the chain from it. */
    method CheckFormula(col: string, row: int, text: string) returns (r: Outcome<Error>)
      requires Valid()
      ensures r == FormulaOutcome(schema, data, Links, Rank, col, row, text)
    {
      var parsed := ExtractRefColRow(text);
      if parsed.Err? {
        return Fail(parsed.error);
      }
      var ref := parsed.value;
      if !IsColumnExist(schema, ref.col) {
        return Fail(MissingColumn(ref.col));
      }
      if ref.col !in data {
        return Fail(NoRowsForColumn(ref.col));
      }
      if ref.row !in data[ref.col] {
        return Fail(MissingValue(ref.row, ref.col));
      }
      if ParseInt(ref.row) == Some(row) && ref.col == col {
        return Fail(SelfReference);
      }
      var refType := ColumnType(schema, ref.col).value;
      if refType != "string" {
        return Fail(NonStringReference(ref.col, refType));
      }
      SelfReferenceIsSameCell(schema, data, Links, Rank, ref, col, row);
      var cyclic := CycleWalk(col, row, ref);
      if cyclic {
        return Fail(CyclicReference);
      }
      return Pass;
    }

    /** `set_cell`: the checks of `SetCellOutcome`, in the same order, then
        the write; a rejected call leaves the sheet unchanged. */
    method SetCell(col: string, row: int, value: Value) returns (r: Outcome<Error>)
      requires Valid()
      modifies this
      ensures Valid()
      ensures schema == old(schema)
      ensures r == SetCellOutcome(old(schema), old(data), old(Links), old(Rank), col, row, value)
      ensures data == (if r.Pass? then Written(old(data), col, IntToString(row), value) else old(data))
    {
      if !IsColumnExist(schema, col) {
        return Fail(InvalidColumnName(col));
      }
      var colType := ColumnType(schema, col).value;
      if !IsSupportedType(colType) {
        return Fail(InvalidTypeName(colType));
      }
      if SupportedTypes[colType] != TypeOf(value) {
        return Fail(InvalidValueType(colType, Render(value), TypeOf(value)));
      }
      if value.Str? && IsFormulaText(value.s) {
        r := CheckFormula(col, row, value.s);
        if r.Fail? {
          return;
        }
      }
      ghost var w := Addr(col, IntToString(row));
      SetCellKeepsInv(schema, data, Links, Rank, col, row, value);
      Links, Rank := LinksAfter(Links, w, value), RankAfter(Links, Rank, w, value);
      Update(col, row, value);
      r := Pass;
    }

    /** `get_endpoint_cell_value`: read the cell, then, while the text read
        is a formula, re-read the current cell, parse it and move to the
        cell it names; errors of the first read are passed on. */
    method GetEndpointCellValue(col: string, row: string) returns (r: Result<string, Error>)
      requires Valid()
      ensures r.Ok? <==> GetCellValue(schema, data, col, row).Ok?
      ensures r.Err? ==> r == GetCellValue(schema, data, col, row)
      ensures r.Ok? ==> r.value == Endpoint(schema, data, Links, Rank, Addr(col, row))
    {
      var first := GetCellValue(schema, data, col, row);
      if first.Err? {
        return first;
      }
      var cellValue := first.value;
      var c, k := col, row;
      while IsFormulaText(cellValue)
        invariant Stored(data, Addr(c, k)) && IsColumnExist(schema, c)
        invariant cellValue == Render(At(data, Addr(c, k)))
        invariant Endpoint(schema, data, Links, Rank, Addr(c, k)) == Endpoint(schema, data, Links, Rank, Addr(col, row))
        decreases Rank(Addr(c, k))
      {
        assert CellInv(schema, data, Links, Addr(c, k));
        var again := GetCellValue(schema, data, c, k);
        var parsed := ExtractRefColRow(again.value);
        c, k := parsed.value.col, parsed.value.row;
        cellValue := GetCellValue(schema, data, c, k).value;
      }
      assert CellInv(schema, data, Links, Addr(c, k));
      return Ok(cellValue);
    }

    /** `get_sheet`: every stored cell under its address, with its raw value. */
    method GetSheet() returns (sheet: map<Addr, Value>)
      ensures forall a :: a in sheet <==> Stored(data, a)
      ensures forall a :: a in sheet ==> sheet[a] == At(data, a)
    {
      sheet := map[];
      var cols := data.Keys;
      while cols != {}
        invariant cols <= data.Keys
        invariant forall a :: a in sheet <==> Stored(data, a) && a.col !in cols
        invariant forall a :: a in sheet ==> sheet[a] == At(data, a)
        decreases |cols|
      {
        var c :| c in cols;
        var rows := data[c].Keys;
        while rows != {}
          invariant rows <= data[c].Keys
          invariant forall a :: a in sheet <==> Stored(data, a) && (a.col !in cols || (a.col == c && a.row !in rows))
          invariant forall a :: a in sheet ==> sheet[a] == At(data, a)
          decreases |rows|
        {
          var k :| k in rows;
          sheet := sheet[Addr(c, k) := data[c][k]];
          rows := rows - {k};
        }
        cols := cols - {c};
      }
    }

    /** `get_deep_sheet`: every stored cell under its address, resolved to
        the end of its reference chain. */
    method GetDeepSheet() returns (sheet: map<Addr, string>)
      requires Valid()
      ensures forall a :: a in sheet <==> Stored(data, a)
      ensures forall a :: a in sheet ==> sheet[a] == Endpoint(schema, data, Links, Rank, a)
    {
      sheet := map[];
      var cols := data.Keys;
      while cols != {}
        invariant cols <= data.Keys
        invariant forall a :: a in sheet <==> Stored(data, a) && a.col !in cols
        invariant forall a :: a in sheet ==> sheet[a] == Endpoint(schema, data, Links, Rank, a)
        decreases |cols|
      {
        var c :| c in cols;
        var rows := data[c].Keys;
        while rows != {}
          invariant rows <= data[c].Keys
          invariant forall a :: a in sheet <==> Stored(data, a) && (a.col !in cols || (a.col == c && a.row !in rows))
          invariant forall a :: a in sheet ==> sheet[a] == Endpoint(schema, data, Links, Rank, a)
          decreases |rows|
        {
          var k :| k in rows;
          var v := GetEndpointCellValue(c, k);
          sheet := sheet[Addr(c, k) := v.value];
          rows := rows - {k};
        }
        cols := cols - {c};
      }
    }
  }
}
