/** The typed cell store of a spreadsheet: cell values, the schema of declared
    columns, the nested column -> row key -> value store, and the checked reads
    and the raw write the engine performs on them. */
module Cells {
  import opened Wrappers
  import opened Text

  /** The text Python's `str()` gives a float ("1.5", "-0.25", "inf", "nan",
      "1e+20"). Float arithmetic is not modelled: a float is carried by that
      text, which never begins with the formula keyword. */
  type FloatText = s: string | !StartsWith(s, "lookup") witness "0.0"

  /** A stored value, tagged with its Python runtime type. */
  datatype Value = Str(s: string) | Int(i: int) | Float(f: FloatText) | Bool(b: bool)

  /** Python's `str(value)`: only a string can render as formula text, and
      the text of an int reads back as that int. */
  function Render(v: Value): (r: string)
    ensures IsFormulaText(r) ==> v.Str?
    ensures v.Int? ==> ParseInt(r) == Some(v.i)
  {
    match v
    case Str(s) => s
    case Int(i) =>
      IntTextIsNotFormula(i);
      ParseIntOfIntToString(i);
      IntToString(i)
    case Float(f) => f
    case Bool(b) => if b then "True" else "False"
  }

  /** Python's runtime classes of stored values. */
  datatype PyType = StrType | IntType | FloatType | BoolType

  /** Python's `type(v)`. A bool is not an int here: `type(True)` is `bool`. */
  function TypeOf(v: Value): PyType {
    match v
    case Str(_) => StrType
    case Int(_) => IntType
    case Float(_) => FloatType
    case Bool(_) => BoolType
  }

  /** `supported_type_map` of `set_cell`: declared type name -> class. */
  const SupportedTypes: map<string, PyType> :=
    map["int" := IntType, "float" := FloatType, "string" := StrType, "bool" := BoolType]

  /** The declared type names `set_cell` accepts: the keys of the map. */
  predicate IsSupportedType(t: string) {
    t in SupportedTypes
  }

  /** The key of `supported_type_map` whose class is `type(v)`. */
  function TypeName(v: Value): (t: string)
    ensures IsSupportedType(t) && SupportedTypes[t] == TypeOf(v)
  {
    match v
    case Str(_) => "string"
    case Int(_) => "int"
    case Float(_) => "float"
    case Bool(_) => "bool"
  }

  /** The map is one-to-one, so the test `supported_type_map[t] != type(v)`
      on a supported name `t` fails exactly when `t` is `TypeName(v)`. */
  lemma TypeCheckMatchesName(t: string, v: Value)
    requires IsSupportedType(t)
    ensures SupportedTypes[t] == TypeOf(v) <==> t == TypeName(v)
  {
  }

  /** Every supported type name is the type name of some value. */
  lemma SupportedTypesAreValueTypes(t: string)
    ensures IsSupportedType(t) <==> exists v :: TypeName(v) == t
  {
    if t == "int" { assert TypeName(Int(0)) == t; }
    else if t == "float" { assert TypeName(Float("0.0")) == t; }
    else if t == "string" { assert TypeName(Str("")) == t; }
    else if t == "bool" { assert TypeName(Bool(true)) == t; }
  }

  /** The test both walks and `set_cell` apply: text beginning with `lookup`. */
  predicate IsFormulaText(t: string) {
    StartsWith(t, "lookup")
  }

  /** `str()` of an int starts with a digit or `-`, never with `lookup`. */
  lemma IntTextIsNotFormula(i: int)
    ensures !IsFormulaText(IntToString(i))
  {
    var t := IntToString(i);
    assert t[0] == '-' || IsDigit(t[0]);
    if |t| >= 6 { assert t[..6][0] == t[0]; }
  }

  /** One entry of the schema's `columns` list. */
  datatype ColumnDef = ColumnDef(name: string, typ: string)

  type Schema = seq<ColumnDef>

  /** `Spreadsheet.data`: column name -> row key -> stored value. */
  type Data = map<string, map<string, Value>>

  /** A cell address: a column name and a row key (the text `str(row)`). */
  datatype Addr = Addr(col: string, row: string)

  /** The errors the engine raises, one per message of the source. */
  datatype Error =
    | InvalidColumnName(col: string)            // "Invalid column name {col}"
    | InvalidTypeName(typ: string)              // "Invalid type name: {col_type}"
    | InvalidValueType(typ: string, value: string, actual: PyType)
                                                // "Invalid value type for type {col_type} column: {value} is type of {type(value)}"
    | InvalidFormulaFormat                      // "Invalid formula format"
    | InvalidArgumentCount                      // "Invalid number of arguments in formula"
    | MissingColumn(col: string)                // "Missing column {ref_col}"
    | NoRowsForColumn(col: string)              // KeyError from self.data[col]
    | MissingValue(row: string, col: string)    // "Missing value {ref_row} in column {ref_col}"
    | SelfReference                             // "Formula cannot reference the same cell"
    | NonStringReference(col: string, typ: string) // "Column {ref_col} is type: (...), but only string refs allowed"
    | CyclicReference                           // "Cyclic ref detected: can't add"
    | InvalidRowIndex(row: string)              // "Invalid row index {row}"

  /** The list `[column['name'] for column in columns]`. */
  function ColumnNames(s: Schema): (names: seq<string>)
    ensures |names| == |s|
    ensures forall i :: 0 <= i < |s| ==> names[i] == s[i].name
  {
    if s == [] then [] else [s[0].name] + ColumnNames(s[1..])
  }

  /** The test `any(d['name'] == col for d in columns)` of `set_cell`. */
  predicate IsColumnExist(s: Schema, col: string) {
    exists i :: 0 <= i < |s| && s[i].name == col
  }

  /** `__is_column_exist` looks the name up in the list of column names,
      which is the same test. */
  lemma ColumnExistIsListed(s: Schema, col: string)
    ensures IsColumnExist(s, col) <==> col in ColumnNames(s)
  {
    var names := ColumnNames(s);
    if col in names {
      var i :| 0 <= i < |names| && names[i] == col;
      assert s[i].name == col;
    }
  }

  /** `get_column_type`: the type of the first column with this name; `None`
      where the source's `[0]` would raise IndexError. */
  function ColumnType(s: Schema, name: string): (r: Option<string>)
    ensures r.Some? <==> IsColumnExist(s, name)
    ensures r.Some? ==> exists i :: 0 <= i < |s| && s[i].name == name && s[i].typ == r.value &&
                                    forall j :: 0 <= j < i ==> s[j].name != name
  {
    if s == [] then None
    else if s[0].name == name then Some(s[0].typ)
    else
      var r := ColumnType(s[1..], name);
      assert IsColumnExist(s, name) ==> IsColumnExist(s[1..], name) by {
        if IsColumnExist(s, name) {
          var i :| 0 <= i < |s| && s[i].name == name;
          assert s[1..][i - 1].name == name;
        }
      }
      assert r.Some? ==> exists i :: 0 <= i < |s| && s[i].name == name && s[i].typ == r.value &&
                                     forall j :: 0 <= j < i ==> s[j].name != name by {
        if r.Some? {
          var i :| 0 <= i < |s| - 1 && s[1..][i].name == name && s[1..][i].typ == r.value &&
                   forall j :: 0 <= j < i ==> s[1..][j].name != name;
          assert forall j :: 0 <= j < i + 1 ==> s[j].name != name by {
            forall j | 0 <= j < i + 1 ensures s[j].name != name {
              if j > 0 { assert s[j] == s[1..][j - 1]; }
            }
          }
          assert s[i + 1] == s[1..][i];
        }
      }
      r
  }

  /** The cell at `a` holds a value. */
  predicate Stored(d: Data, a: Addr) {
    a.col in d && a.row in d[a.col]
  }

  function At(d: Data, a: Addr): Value
    requires Stored(d, a)
  {
    d[a.col][a.row]
  }

  /** `get_cell_value`: the stored value's `str()`, unresolved (a formula cell
      gives its formula text), after checking that the column is declared,
      that it has a row map, and that the row key is in it. */
  function GetCellValue(s: Schema, d: Data, col: string, row: string): (r: Result<string, Error>)
    ensures r.Ok? <==> IsColumnExist(s, col) && Stored(d, Addr(col, row))
    ensures r.Ok? ==> r.value == Render(At(d, Addr(col, row)))
    ensures !IsColumnExist(s, col) ==> r == Err(InvalidColumnName(col))
    ensures IsColumnExist(s, col) && col !in d ==> r == Err(NoRowsForColumn(col))
    ensures IsColumnExist(s, col) && col in d && row !in d[col] ==> r == Err(InvalidRowIndex(row))
  {
    if !IsColumnExist(s, col) then Err(InvalidColumnName(col))
    else if col !in d then Err(NoRowsForColumn(col))
    else if row !in d[col] then Err(InvalidRowIndex(row))
    else Ok(Render(d[col][row]))
  }

  /** The store after `__update`: the column's row map is created when absent,
      then the cell under `key` is set; nothing else changes. */
  function Written(d: Data, col: string, key: string, v: Value): (d': Data)
    ensures Stored(d', Addr(col, key)) && At(d', Addr(col, key)) == v
    ensures forall a :: a != Addr(col, key) ==> (Stored(d', a) <==> Stored(d, a))
    ensures forall a :: a != Addr(col, key) && Stored(d, a) ==> At(d', a) == At(d, a)
    ensures d'.Keys == d.Keys + {col}
  {
    var rows := if col in d then d[col] else map[];
    d[col := rows[key := v]]
  }
}
