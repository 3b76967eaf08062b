# Sheet engine of Anchor, modelled in Dafny

Anchor keeps typed spreadsheets. A sheet has a schema, which is an ordered list of
columns, each with a name and a declared type (`string`, `int`, `float` or
`bool`). It also has a cell store that maps a column name to a map from row key
(`str(row)`) to a stored value. A string cell can hold a formula
`lookup(<column>, <row>)` that refers to another cell. `get_endpoint_cell_value`
follows such references to the literal at the end of the chain.
`set_cell` only writes a formula whose target exists, lies in a string column,
is not the cell being written, and whose chain does not lead back to it.

The model is split into modules:

- `Text` (text.dfy) covers the Python `str` operations the engine uses:
  - `startswith`;
  - `strip()` with Python's whitespace set;
  - `split(",")`;
  - `str(n)` of an integer;
  - `int(s)` on decimal text.
- `Cells` (cells.dfy) covers:
  - values tagged with their runtime type, and their `str()`;
  - the schema, the store and cell addresses;
  - the engine's errors;
  - `get_column_type`, `__is_column_exist` and `get_cell_value`;
  - the store after `__update`.
- `Formula` (formula.dfy) covers `extract_ref_col_row`, both as a function and as
  the source's loop. It includes the round trip from formula text back to the
  address it names.
- `Chains` (chains.dfy) holds the sheet invariant and the endpoint a chain
  resolves to. It also holds `SetCellOutcome`, the ordered validation of
  `set_cell`, and the lemmas about all three:
  - an accepted write keeps the invariant;
  - the cycle check is exact;
  - reads after a write behave as expected.

  The invariant has five parts:
  - every column that has a row map is declared in the schema;
  - every stored cell has a canonical row key and a value of its column's type;
  - exactly the formula cells appear in a ghost reference graph `links`;
  - every edge in `links` is the cell's parsed formula, and its target is stored
    in a string column;
  - a ghost ranking falls along every edge, so no chain is cyclic.
- `Sheets` (spreadsheet.dfy) holds the class `Spreadsheet` with the fields
  `schema` and `data`. It has `set_cell` (with its cycle walk and `__update`),
  `get_endpoint_cell_value`, `get_sheet` and `get_deep_sheet`. Each method is
  proved against a specification function: `Chains` for the walks and
  `set_cell`, `Cells.Written` for `__update`, `Cells.Stored` and `Cells.At`
  for `get_sheet`. Both walks are shown to terminate
  under the invariant, by the ghost ranking.

Three behaviours of models.py are easy to miss:

- Neither walk (models.py:92-96 and 111-113) keeps a visited set. Both end
  because `set_cell` keeps the sheet acyclic, which `Chains.SetCellKeepsInv`
  proves.
- `get_endpoint_cell_value` returns the `str()` of the literal at the end of the
  chain, not the literal itself, and so does `Chains.Endpoint`.
- `set_cell` accepts any `int` row up to Python's digit limit for `str()`,
  negative ones included. Those are stored
  under keys such as `"-5"`.

## Model

| member | source | states |
|---|---|---|
| Text.VisibleIsNotSpace | models.py:13 | no printable ASCII character (the comma, digits, letters, signs) is whitespace that `strip()` removes |
| Text.TrimLeftShape | models.py:13 | the left half of `strip()` removes a prefix made only of whitespace, and what remains does not begin with whitespace |
| Text.TrimRightShape | models.py:13 | the right half of `strip()` removes a suffix made only of whitespace, and what remains does not end with whitespace |
| Text.Strip | models.py:20 | the result of `strip()` has no whitespace at either end |
| Text.StripOfStripped | models.py:20 | `strip()` leaves text without surrounding whitespace unchanged |
| Text.StripAfterPadding | models.py:20 | `strip()` of whitespace followed by stripped text gives exactly that text |
| Text.StripBeforePadding | models.py:20 | `strip()` of stripped text followed by whitespace gives exactly that text |
| Text.TrimLeftThrough | models.py:13 | `lstrip()` stops at the first non-whitespace character and keeps everything after it |
| Text.TrimRightThrough | models.py:13 | `rstrip()` stops at the last non-whitespace character and keeps everything before it |
| Text.StripThrough | models.py:13 | `strip()` of text around a non-whitespace character (the comma) strips only the left of the text before it and the right of the text after it |
| Text.TrimsAvoid | models.py:13 | `lstrip()` and `rstrip()` add no character, so comma-free text stays comma-free |
| Text.StripOfTrimLeft | models.py:20 | `strip()` after `lstrip()` is `strip()`: the left piece, stripped again at line 20, is the stripped text before the comma |
| Text.StripOfTrimRight | models.py:20 | `strip()` after `rstrip()` is `strip()`: the right piece, stripped again at line 20, is the stripped text after the comma |
| Text.StripKeepsCount | models.py:13 | `strip()` removes no occurrence of a non-whitespace character such as the comma |
| Text.Split | models.py:13 | `split(",")` always gives at least one piece, even for empty text |
| Text.SplitSize | models.py:13-15 | `split(",")` gives one more piece than there are commas |
| Text.SplitPiecesAvoidSep | models.py:13 | no piece of `split(",")` contains a comma |
| Text.JoinOfSplit | models.py:13 | joining the pieces of `split(",")` with commas gives back the text |
| Text.SplitOfPair | models.py:13-15 | text with one comma splits into the text before it and the text after it |
| Text.SplitOfJoin | models.py:13 | splitting the comma-join of comma-free pieces gives back those pieces |
| Text.SplitOfPiece | models.py:13 | comma-free text splits into itself alone |
| Text.SplitAfterPiece | models.py:13 | a comma-free piece followed by a comma splits off as the first piece |
| Text.NatToString | models.py:124 | `str(n)` of a natural number is a nonempty string of decimal digits with no leading zero |
| Text.IntToString | models.py:124 | `str(i)` begins with `-` or a digit and ends with a digit |
| Text.ParseInt | models.py:81 | `int()` accepts only text that, once stripped, ends in a digit, and a negative result needs a leading `-`. Stripped text made only of digits always gives a non-negative integer |
| Text.DigitsValueOfNat | models.py:81 | the digits `str(n)` writes are worth `n` |
| Text.ParseIntOfIntToString | models.py:81 | `int(str(i)) == i` for every integer |
| Text.CanonicalKeyMatchesRow | models.py:81-95 | on a key of the form `str(k)`, `int(key) == row` (the self-reference test) holds exactly when `key == str(row)` (the cycle test) |
| Text.IntToStringIsCanonical | models.py:124 | `str(i)` is a canonical key: `int()` reads it back as `i`, and `str()` of that writes the same text. Line 124 stores every cell under such a key |
| Cells.Render | models.py:107 | `str(value)` begins with `lookup` only for a `str` value, and `int()` of the `str()` of an int gives that int back |
| Cells.IntTextIsNotFormula | models.py:107-111 | the `str()` of an int, as `get_cell_value` returns it at line 107, never begins with `lookup`, so neither walk (lines 92 and 111) treats a stored int as a formula; `Cells.Render`'s contract, behind the cell invariant, rests on it |
| Cells.TypeName | models.py:52-63 | the name of a value's type is a key of `supported_type_map`, and it maps to `type(value)` |
| Cells.TypeCheckMatchesName | models.py:62-63 | for a supported type name, `supported_type_map[col_type] == type(value)` holds exactly when the name is the value's type name |
| Cells.SupportedTypesAreValueTypes | models.py:52-60 | a type name is supported exactly when it is the type name of some value |
| Cells.ColumnExistIsListed | models.py:126-130 | `__is_column_exist` (the name is in the list of column names) and the `any(...)` test at line 74 agree on every schema and name |
| Cells.ColumnType | models.py:116-118 | a type is found exactly when the column is declared, and it is the type of the first column with that name |
| Cells.GetCellValue | models.py:100-107 | succeeds exactly when the column is declared and the row key is stored. Returns the stored value's `str()`, unresolved. An undeclared column gives "Invalid column name", a declared column without a row map gives the `KeyError` of `self.data[col]`, and a missing key in an existing row map gives "Invalid row index" |
| Cells.Written | models.py:120-124 | after `__update` the cell holds the value, the column's row map exists, and every other cell is stored and valued as before |
| Formula.Arguments | models.py:13 | `value[7:-1]` is what lies between the first seven characters and the last one |
| Formula.ParseRef | models.py:8-22 | text without the `lookup(` opening fails with "Invalid formula format". Text with the opening whose arguments do not hold exactly one comma fails with "Invalid number of arguments in formula". A parsed address is two stripped, comma-free pieces of text that began with the opening. With `Formula.ParseRefAccepts` and `Formula.ParseRefParts` this fixes the result on every input |
| Formula.ParseRefParts | models.py:8-22 | for any text with the opening whose arguments `value[7:-1]` hold one comma, the address is the text before the comma and the text after it, each stripped (so `lookup( col1,2)`, `lookup(col1,2]` and `lookup(,2)` give `("col1","2")`, `("col1","2")` and `("","2")`) |
| Formula.ExtractRefColRow | models.py:8-22 | the source's loop that strips each piece in place computes `ParseRef` |
| Formula.ParseRefAccepts | models.py:9-16 | a formula parses exactly when it has the opening and its arguments hold exactly one comma |
| Formula.FormulaText | models.py:9-13 | text built as `lookup(col<ws>,<ws>row)` is formula text whose arguments are the part between the parentheses |
| Formula.ParseRefOfFormulaText | models.py:8-22 | parsing `lookup(col<ws>,<ws>row)` gives back `(col, row)` for any whitespace around the comma |
| Formula.ParseRefExample | SpreadsheetTest.py:101-106 | `lookup(col1, 2)` parses to column `col1`, row `2` |
| Chains.Distance | models.py:91-96 | when the chain from a cell passes through `w`, following that many references from the cell lands on `w` |
| Chains.FollowReaches | models.py:91-96 | conversely, every address some number of references down a chain is one the chain passes through |
| Chains.Endpoint | models.py:109-114 | under the invariant the resolved value never begins with `lookup` |
| Chains.LinkedCell | models.py:111-113 | a formula cell and its target are both stored and resolve to the same value |
| Chains.UnlinkedCell | models.py:111 | a stored cell outside the reference graph holds a literal, which is its resolved value |
| Chains.EndpointIsChainEnd | models.py:109-114 | the resolved value is the `str()` of a stored literal some number of steps down the chain |
| Chains.EndpointStep | models.py:111-113 | a formula cell parses to a stored cell and resolves to what that cell resolves to |
| Chains.EndpointAlongChain | models.py:109-114 | every cell along a chain, however far, resolves to the same value |
| Chains.EndpointOfLiteral | models.py:109-110 | for a non-formula cell the resolved value is what `get_cell_value` returns |
| Chains.SetCellOutcome | models.py:46-98 | an undeclared column fails with "Invalid column name". An accepted value has its column's declared type. An accepted formula parses to a stored cell of a string column whose chain does not reach the cell being written |
| Chains.FormulaOutcome | models.py:66-96 | an accepted formula parses to a stored cell of a string column, and that cell's chain does not reach the cell being written |
| Chains.SetCellAccepts | models.py:46-98 | a write is accepted exactly when the declared type is the value's own type. For formula text it also needs the parse to succeed, the referenced column to be declared and its row stored, the target to differ from the written cell, the target column to be `string`, and the target's chain not to reach the written cell |
| Chains.SelfReferenceIsSameCell | models.py:81-82 | on a stored target, `int(ref_row) == row and ref_col == col` is the test that the target is the cell being written |
| Chains.NewEdgeKeepsRanked | models.py:91-98 | adding the edge from the written cell to a target whose chain does not reach it leaves the graph acyclic |
| Chains.WrittenCellInv | models.py:98 | the cell an accepted write stores satisfies the cell invariant |
| Chains.OtherCellInv | models.py:120-124 | every other stored cell still satisfies the cell invariant after the write |
| Chains.RankAfterKeepsRanked | models.py:91-98 | the graph after an accepted write stays acyclic |
| Chains.SetCellKeepsInv | models.py:46-98 | an accepted write keeps the whole sheet invariant |
| Chains.RejectedCycleIsReal | models.py:92-95 | when the cycle check fires, storing the formula would have made the chain from the written cell return to it |
| Chains.FollowUntilWritten | models.py:92-95 | a chain that reaches the written cell still reaches it once that cell's own reference changes |
| Chains.ReadAfterWrite | models.py:98-107 | after an accepted write, `get_cell_value` at the written cell gives `str(value)`. Every other read is unchanged, except in a column whose row map the write creates: there a read raised `KeyError` before the write and gives "Invalid row index" after it |
| Sheets.Spreadsheet.constructor | routers.py:19 | a new sheet has the given columns, no cells, and satisfies the invariant |
| Sheets.Spreadsheet.Update | models.py:120-124 | the store becomes `Written(old store, col, str(row), value)` |
| Sheets.Spreadsheet.CycleWalk | models.py:91-96 | the walk terminates under the invariant and reports a cycle exactly when the target's chain reaches `(col, str(row))` |
| Sheets.Spreadsheet.CheckFormula | models.py:66-96 | the formula branch of `set_cell` (the parse, the checks on the target, the cycle walk) computes `FormulaOutcome` |
| Sheets.Spreadsheet.SetCell | models.py:46-98 | the outcome is `SetCellOutcome` and the invariant is kept. On success the store is the old one with the cell written; on every failure it is unchanged |
| Sheets.Spreadsheet.GetEndpointCellValue | models.py:109-114 | the walk terminates. It fails exactly when the first `get_cell_value` fails, with the same error, and otherwise returns the chain's resolved value |
| Sheets.Spreadsheet.GetSheet | models.py:32-37 | the keys are exactly the stored addresses, each mapped to its raw stored value |
| Sheets.Spreadsheet.GetDeepSheet | models.py:39-44 | the keys are exactly the stored addresses, each mapped to its resolved value |

## Left out

- HTTP endpoints, database sessions, the pydantic request models, the SQLAlchemy column declarations (routers.py, database.py, schemas.py, models.py:1-5 and 25-30), and the router's rewrite of `double` into `float`. These are adapter and persistence code.
- Float numerics and Python's `str()` of a float: a float value is carried by its text (`Cells.FloatText`), which never begins with `lookup`.
- The iteration order of `get_sheet` and `get_deep_sheet`: the model returns maps, and only the key/value mapping is stated.
- Error messages are modelled as `Cells.Error` constructors that carry the interpolated values, not as the formatted text. The `{type(value)}` of "Invalid value type" is carried as a `Cells.PyType`, not as Python's text for a class (`<class 'str'>`).
- `int()` also accepts underscores between digits and non-ASCII digits. `Text.ParseInt` does not model this. It is applied only to a row key already found in the store, and every stored key is `str(row)`, so the difference cannot show.
- `int(ref_row)` raising `ValueError` (models.py:81) is not modelled as an error: at that point `ref_row` is a stored key of the form `str(k)`, so it cannot raise.
- The second membership test at models.py:84-85 repeats the one at line 78 (`str(ref_row)` is `ref_row`), so it can never fail and has no branch of its own.
- `get_cell_value` called with an integer row (SpreadsheetTest.py:52-55) is modelled through text keys only. An integer is never a key of the store. On a column that has a row map the call gives "Invalid row index", and on a declared column without one it raises `KeyError`, the same as an absent text key.
- Sheets.Spreadsheet.CycleWalk, Sheets.Spreadsheet.GetEndpointCellValue, Sheets.Spreadsheet.GetDeepSheet and Sheets.Spreadsheet.SetCell require the sheet invariant. On data that breaks it (a cyclic chain, a dangling or unparsable formula), which data assigned directly may do, the source may loop forever or raise from inside a walk. Those behaviours are not modelled.
- Text.IntToString: Python (3.10.7 and later) refuses to convert an integer of more than 4300 decimal digits to text and raises `ValueError`; the model's `str()` is total. So `set_cell` with such a row (raised at models.py:124, after line 122 may already have created the row map), a formula walk past such a key (line 94), and `get_cell_value` of such a stored int (line 107) are modelled as succeeding. Cells.Render, Cells.Written and Chains.SetCellOutcome inherit this.
- A schema entry missing its `name` or `type` key raises `KeyError` in the source. Schema entries are modelled as well-formed pairs.
- The `print` in SpreadsheetTest.py:123 is test output.
