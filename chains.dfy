/** Reference chains between cells: the invariant the engine keeps (every
    formula parses and points at a stored cell of a string column, and the
    references are acyclic), the endpoint a chain resolves to, and the
    validation `set_cell` performs before it writes (models.py lines 46-98). */
module Chains {
  import opened Wrappers
  import opened Text
  import opened Cells
  import opened Formula

  /** A ranking of addresses; the invariant asks it to fall strictly along
      every reference, which rules out cycles. */
  type Ranking = Addr -> nat

  /** The reference graph of a store: each formula cell mapped to the address
      its formula names. */
  type Links = map<Addr, Addr>

  /** `rank` falls strictly along every reference. */
  predicate Ranked(links: Links, rank: Ranking) {
    forall a :: a in links ==> rank(links[a]) < rank(a)
  }

  /** What `set_cell` guarantees about each cell it stores: a canonical row
      key `str(row)`, a value of the column's declared type, and exactly for
      formula text a reference, recorded in `links`, that parses from the
      text, is stored and lies in a string column. */
  predicate CellInv(s: Schema, d: Data, links: Links, a: Addr)
    requires Stored(d, a)
  {
    && IsCanonicalKey(a.row)
    && ColumnType(s, a.col) == Some(TypeName(At(d, a)))
    && (a in links <==> IsFormulaText(Render(At(d, a))))
    && (a in links ==>
          && ParseRef(Render(At(d, a))) == Ok(links[a])
          && Stored(d, links[a])
          && ColumnType(s, links[a].col) == Some("string"))
  }

  /** The sheet invariant: every column with rows is declared, `links` is the
      reference graph of the stored cells, every stored cell satisfies
      `CellInv`, and `rank` orders the references. */
  ghost predicate SheetInv(s: Schema, d: Data, links: Links, rank: Ranking) {
    && (forall col :: col in d ==> IsColumnExist(s, col))
    && (forall a :: a in links ==> Stored(d, a))
    && (forall a {:trigger CellInv(s, d, links, a)} :: Stored(d, a) ==> CellInv(s, d, links, a))
    && Ranked(links, rank)
  }

  /** The chain of references from `a` passes through `w` (`a` itself included). */
  function Reaches(links: Links, rank: Ranking, a: Addr, w: Addr): bool
    requires Ranked(links, rank)
    decreases rank(a)
  {
    a == w || (a in links && Reaches(links, rank, links[a], w))
  }

  /** The address `n` references after `a`, stopping where the chain ends. */
  function Follow(links: Links, a: Addr, n: nat): Addr
    decreases n
  {
    if n == 0 || a !in links then a else Follow(links, links[a], n - 1)
  }

  /** How many references lead from `a` to `w` when its chain reaches `w`. */
  function Distance(links: Links, rank: Ranking, a: Addr, w: Addr): (n: nat)
    requires Ranked(links, rank) && Reaches(links, rank, a, w)
    ensures Follow(links, a, n) == w
    decreases rank(a)
  {
    if a == w then 0 else 1 + Distance(links, rank, links[a], w)
  }

  /** Conversely, any address some number of steps down the chain is reached. */
  lemma {:induction false} FollowReaches(links: Links, rank: Ranking, a: Addr, n: nat)
    requires Ranked(links, rank)
    ensures Reaches(links, rank, a, Follow(links, a, n))
    decreases n
  {
    if n != 0 && a in links {
      FollowReaches(links, rank, links[a], n - 1);
    }
  }

  /** `get_endpoint_cell_value`: the rendering of the literal a chain of
      references ends at. */
  function Endpoint(s: Schema, d: Data, links: Links, rank: Ranking, a: Addr): (r: string)
    requires SheetInv(s, d, links, rank) && Stored(d, a)
    ensures !IsFormulaText(r)
    decreases rank(a)
  {
    assert CellInv(s, d, links, a);
    if a in links then Endpoint(s, d, links, rank, links[a]) else Render(At(d, a))
  }

  /** A linked cell and its target are stored and resolve alike. */
  lemma LinkedCell(s: Schema, d: Data, links: Links, rank: Ranking, a: Addr)
    requires SheetInv(s, d, links, rank) && a in links
    ensures Stored(d, a) && Stored(d, links[a])
    ensures Endpoint(s, d, links, rank, a) == Endpoint(s, d, links, rank, links[a])
  {
    assert CellInv(s, d, links, a);
  }

  /** A stored cell without a link holds a literal, which is its endpoint. */
  lemma UnlinkedCell(s: Schema, d: Data, links: Links, rank: Ranking, a: Addr)
    requires SheetInv(s, d, links, rank) && Stored(d, a) && a !in links
    ensures !IsFormulaText(Render(At(d, a)))
    ensures Endpoint(s, d, links, rank, a) == Render(At(d, a))
  {
    assert CellInv(s, d, links, a);
  }

  /** The endpoint is the value of a stored, non-formula cell some number of
      steps down the chain. */
  lemma {:induction false} EndpointIsChainEnd(s: Schema, d: Data, links: Links, rank: Ranking, a: Addr)
    requires SheetInv(s, d, links, rank) && Stored(d, a)
    ensures exists n: nat :: && Stored(d, Follow(links, a, n))
                             && !IsFormulaText(Render(At(d, Follow(links, a, n))))
                             && Endpoint(s, d, links, rank, a) == Render(At(d, Follow(links, a, n)))
    decreases rank(a)
  {
    if a in links {
      LinkedCell(s, d, links, rank, a);
      var b := links[a];
      EndpointIsChainEnd(s, d, links, rank, b);
      var n: nat :| && Stored(d, Follow(links, b, n))
                    && !IsFormulaText(Render(At(d, Follow(links, b, n))))
                    && Endpoint(s, d, links, rank, b) == Render(At(d, Follow(links, b, n)));
      assert Follow(links, a, n + 1) == Follow(links, b, n);
    } else {
      UnlinkedCell(s, d, links, rank, a);
      assert Follow(links, a, 0) == a;
    }
  }

  /** A formula cell resolves to what the cell its formula names resolves to. */
  lemma EndpointStep(s: Schema, d: Data, links: Links, rank: Ranking, a: Addr)
    requires SheetInv(s, d, links, rank) && Stored(d, a)
    requires IsFormulaText(Render(At(d, a)))
    ensures ParseRef(Render(At(d, a))).Ok? && Stored(d, ParseRef(Render(At(d, a))).value)
    ensures Endpoint(s, d, links, rank, a) == Endpoint(s, d, links, rank, ParseRef(Render(At(d, a))).value)
  {
    assert CellInv(s, d, links, a);
  }

  /** Every cell along a chain resolves to the same endpoint, however long
      the chain. */
  lemma {:induction false} EndpointAlongChain(s: Schema, d: Data, links: Links, rank: Ranking, a: Addr, n: nat)
    requires SheetInv(s, d, links, rank) && Stored(d, a)
    ensures Stored(d, Follow(links, a, n))
    ensures Endpoint(s, d, links, rank, Follow(links, a, n)) == Endpoint(s, d, links, rank, a)
    decreases n
  {
    if n != 0 && a in links {
      LinkedCell(s, d, links, rank, a);
      EndpointAlongChain(s, d, links, rank, links[a], n - 1);
    }
  }

  /** A cell holding a literal resolves to what `get_cell_value` reads. */
  lemma EndpointOfLiteral(s: Schema, d: Data, links: Links, rank: Ranking, a: Addr)
    requires SheetInv(s, d, links, rank) && Stored(d, a)
    requires !IsFormulaText(Render(At(d, a)))
    ensures GetCellValue(s, d, a.col, a.row) == Ok(Endpoint(s, d, links, rank, a))
  {
    assert CellInv(s, d, links, a);
  }

  /** `set_cell`'s checks, in the source's order, for writing `v` at
      `(col, str(row))`: the column, its type name and the exact runtime
      type; formula text then goes through `FormulaOutcome`. */
  function SetCellOutcome(s: Schema, d: Data, links: Links, rank: Ranking, col: string, row: int, v: Value): (r: Outcome<Error>)
    requires SheetInv(s, d, links, rank)
    ensures !IsColumnExist(s, col) ==> r == Fail(InvalidColumnName(col))
    ensures r.Pass? ==> IsColumnExist(s, col) && ColumnType(s, col) == Some(TypeName(v))
    ensures r.Pass? && v.Str? && IsFormulaText(v.s) ==>
              && ParseRef(v.s).Ok?
              && Stored(d, ParseRef(v.s).value)
              && ColumnType(s, ParseRef(v.s).value.col) == Some("string")
              && !Reaches(links, rank, ParseRef(v.s).value, Addr(col, IntToString(row)))
  {
    if !IsColumnExist(s, col) then Fail(InvalidColumnName(col))
    else
      var typ := ColumnType(s, col).value;
      if !IsSupportedType(typ) then Fail(InvalidTypeName(typ))
      else
        TypeCheckMatchesName(typ, v);
        if SupportedTypes[typ] != TypeOf(v) then Fail(InvalidValueType(typ, Render(v), TypeOf(v)))
        else if !(v.Str? && IsFormulaText(v.s)) then Pass
        else FormulaOutcome(s, d, links, rank, col, row, v.s)
  }

  /** The checks on formula text written at `(col, str(row))`, in the
      source's order: the parse, the referenced column, the referenced row,
      the self-reference, the referenced column's type and the cycle walk. */
  function FormulaOutcome(s: Schema, d: Data, links: Links, rank: Ranking, col: string, row: int, text: string): (r: Outcome<Error>)
    requires SheetInv(s, d, links, rank)
    ensures r.Pass? ==>
              && ParseRef(text).Ok?
              && Stored(d, ParseRef(text).value)
              && ColumnType(s, ParseRef(text).value.col) == Some("string")
              && !Reaches(links, rank, ParseRef(text).value, Addr(col, IntToString(row)))
  {
    match ParseRef(text)
    case Err(e) => Fail(e)
    case Ok(t) =>
      if !IsColumnExist(s, t.col) then Fail(MissingColumn(t.col))
      else if t.col !in d then Fail(NoRowsForColumn(t.col))
      else if t.row !in d[t.col] then Fail(MissingValue(t.row, t.col))
      else if ParseInt(t.row) == Some(row) && t.col == col then Fail(SelfReference)
      else if ColumnType(s, t.col) != Some("string") then Fail(NonStringReference(t.col, ColumnType(s, t.col).value))
      else if Reaches(links, rank, t, Addr(col, IntToString(row))) then Fail(CyclicReference)
      else Pass
  }

  /** A write is accepted exactly when the column's declared type is the
      value's own runtime type and, for formula text, the formula parses to
      a stored cell of a declared string column other than the cell being
      written whose chain does not lead back to it. */
  lemma SetCellAccepts(s: Schema, d: Data, links: Links, rank: Ranking, col: string, row: int, v: Value)
    requires SheetInv(s, d, links, rank)
    ensures SetCellOutcome(s, d, links, rank, col, row, v).Pass? <==>
              && ColumnType(s, col) == Some(TypeName(v))
              && (v.Str? && IsFormulaText(v.s) ==>
                    && ParseRef(v.s).Ok?
                    && IsColumnExist(s, ParseRef(v.s).value.col)
                    && Stored(d, ParseRef(v.s).value)
                    && ParseRef(v.s).value != Addr(col, IntToString(row))
                    && ColumnType(s, ParseRef(v.s).value.col) == Some("string")
                    && !Reaches(links, rank, ParseRef(v.s).value, Addr(col, IntToString(row))))
  {
    if v.Str? && IsFormulaText(v.s) && ParseRef(v.s).Ok? && Stored(d, ParseRef(v.s).value) {
      SelfReferenceIsSameCell(s, d, links, rank, ParseRef(v.s).value, col, row);
    }
  }

  /** The self-reference test `int(ref_row) == row and ref_col == col` on a
      stored target is the test that the target is the cell being written. */
  lemma SelfReferenceIsSameCell(s: Schema, d: Data, links: Links, rank: Ranking, t: Addr, col: string, row: int)
    requires SheetInv(s, d, links, rank) && Stored(d, t)
    ensures (ParseInt(t.row) == Some(row) && t.col == col) <==> t == Addr(col, IntToString(row))
  {
    assert CellInv(s, d, links, t);
    CanonicalKeyMatchesRow(t.row, row);
  }

  /** The reference graph after writing `v` at `w`: a formula adds the edge
      to the address it names, any other value removes `w`'s edge. */
  function LinksAfter(links: Links, w: Addr, v: Value): Links {
    if v.Str? && IsFormulaText(v.s) && ParseRef(v.s).Ok? then links[w := ParseRef(v.s).value] else links - {w}
  }

  /** After an accepted formula write at `w` pointing to `t`, every address
      whose old chain reached `w` is raised above `t`. */
  function NewRank(links: Links, rank: Ranking, w: Addr, t: Addr): Ranking
    requires Ranked(links, rank)
  {
    a => rank(a) + (if Reaches(links, rank, a, w) then rank(t) + 1 else 0)
  }

  /** The ranking after writing `v` at `w`: unchanged for a literal. */
  function RankAfter(links: Links, rank: Ranking, w: Addr, v: Value): Ranking
    requires Ranked(links, rank)
  {
    if v.Str? && IsFormulaText(v.s) && ParseRef(v.s).Ok? then NewRank(links, rank, w, ParseRef(v.s).value) else rank
  }

  /** Adding the edge `w -> t` keeps the graph acyclic when `t`'s chain does
      not reach `w`, under `NewRank`. */
  lemma NewEdgeKeepsRanked(links: Links, rank: Ranking, w: Addr, t: Addr)
    requires Ranked(links, rank) && !Reaches(links, rank, t, w)
    ensures Ranked(links[w := t], NewRank(links, rank, w, t))
  {
    var rank' := NewRank(links, rank, w, t);
    forall a | a in links
      ensures rank'(links[a]) < rank'(a)
    {
      if a != w {
        assert Reaches(links, rank, a, w) == Reaches(links, rank, links[a], w);
      }
    }
    assert rank'(t) == rank(t);
    assert rank'(w) == rank(w) + rank(t) + 1;
  }

  /** The written cell satisfies the cell invariant after an accepted write. */
  lemma WrittenCellInv(s: Schema, d: Data, links: Links, rank: Ranking, col: string, row: int, v: Value)
    requires SheetInv(s, d, links, rank)
    requires SetCellOutcome(s, d, links, rank, col, row, v).Pass?
    ensures CellInv(s, Written(d, col, IntToString(row), v), LinksAfter(links, Addr(col, IntToString(row)), v),
                    Addr(col, IntToString(row)))
  {
    IntToStringIsCanonical(row);
  }

  /** A cell other than the written one keeps the cell invariant. */
  lemma OtherCellInv(s: Schema, d: Data, links: Links, rank: Ranking, w: Addr, v: Value, a: Addr)
    requires SheetInv(s, d, links, rank)
    requires IsColumnExist(s, w.col)
    requires a != w && Stored(d, a)
    ensures CellInv(s, Written(d, w.col, w.row, v), LinksAfter(links, w, v), a)
  {
    assert CellInv(s, d, links, a);
  }

  /** The re-ranking keeps the new reference graph acyclic whenever the
      written formula's chain does not come back to `w`. */
  lemma RankAfterKeepsRanked(links: Links, rank: Ranking, w: Addr, v: Value)
    requires Ranked(links, rank)
    requires v.Str? && IsFormulaText(v.s) && ParseRef(v.s).Ok? ==> !Reaches(links, rank, ParseRef(v.s).value, w)
    ensures Ranked(LinksAfter(links, w, v), RankAfter(links, rank, w, v))
  {
    if v.Str? && IsFormulaText(v.s) && ParseRef(v.s).Ok? {
      NewEdgeKeepsRanked(links, rank, w, ParseRef(v.s).value);
    }
  }

  /** An accepted write keeps the sheet invariant, with the reference graph
      `LinksAfter` and the re-ranking `RankAfter`. */
  lemma SetCellKeepsInv(s: Schema, d: Data, links: Links, rank: Ranking, col: string, row: int, v: Value)
    requires SheetInv(s, d, links, rank)
    requires SetCellOutcome(s, d, links, rank, col, row, v).Pass?
    ensures SheetInv(s, Written(d, col, IntToString(row), v),
                     LinksAfter(links, Addr(col, IntToString(row)), v),
                     RankAfter(links, rank, Addr(col, IntToString(row)), v))
  {
    var w := Addr(col, IntToString(row));
    var d' := Written(d, col, w.row, v);
    var links' := LinksAfter(links, w, v);
    assert forall c :: c in d' ==> IsColumnExist(s, c);
    assert forall a :: a in links' ==> Stored(d', a);
    forall a | Stored(d', a)
      ensures CellInv(s, d', links', a)
    {
      if a == w {
        WrittenCellInv(s, d, links, rank, col, row, v);
      } else {
        OtherCellInv(s, d, links, rank, w, v, a);
      }
    }
    RankAfterKeepsRanked(links, rank, w, v);
  }

  /** The cycle check rejects only writes that would close a cycle: had a
      formula at `w` pointing to `t` been recorded while `t`'s chain reaches
      `w`, the chain from `w` would come back to `w`. */
  lemma RejectedCycleIsReal(links: Links, rank: Ranking, w: Addr, formula: string)
    requires Ranked(links, rank)
    requires IsFormulaText(formula) && ParseRef(formula).Ok?
    requires Reaches(links, rank, ParseRef(formula).value, w)
    ensures exists n: nat :: n >= 1 && Follow(LinksAfter(links, w, Str(formula)), w, n) == w
  {
    var t := ParseRef(formula).value;
    var links' := LinksAfter(links, w, Str(formula));
    assert links' == links[w := t];
    FollowUntilWritten(links, rank, w, links', t);
    var n: nat :| Follow(links', t, n) == w;
    assert Follow(links', w, n + 1) == w;
  }

  /** A chain that reaches `w` is still there, up to `w`, in any graph that
      keeps every edge except possibly `w`'s own. */
  lemma {:induction false} FollowUntilWritten(links: Links, rank: Ranking, w: Addr, links': Links, a: Addr)
    requires Ranked(links, rank) && Reaches(links, rank, a, w)
    requires forall x :: x in links && x != w ==> x in links' && links'[x] == links[x]
    ensures exists n: nat :: Follow(links', a, n) == w
    decreases rank(a)
  {
    if a == w {
      assert Follow(links', a, 0) == w;
    } else {
      var b := links[a];
      FollowUntilWritten(links, rank, w, links', b);
      var n: nat :| Follow(links', b, n) == w;
      assert Follow(links', a, n + 1) == w;
    }
  }

  /** After an accepted write, `get_cell_value` at the written cell gives
      `str(value)`, and every other read is as before, except in a column
      whose row map the write created: there a read failed for want of a
      row map and now fails for want of the row. */
  lemma ReadAfterWrite(s: Schema, d: Data, links: Links, rank: Ranking, col: string, row: int, v: Value, c: string, key: string)
    requires SheetInv(s, d, links, rank)
    requires SetCellOutcome(s, d, links, rank, col, row, v).Pass?
    ensures GetCellValue(s, Written(d, col, IntToString(row), v), col, IntToString(row)) == Ok(Render(v))
    ensures (c, key) != (col, IntToString(row)) && (c != col || col in d) ==>
              GetCellValue(s, Written(d, col, IntToString(row), v), c, key) == GetCellValue(s, d, c, key)
    ensures c == col && col !in d && key != IntToString(row) ==>
              && GetCellValue(s, d, col, key) == Err(NoRowsForColumn(col))
              && GetCellValue(s, Written(d, col, IntToString(row), v), col, key) == Err(InvalidRowIndex(key))
  {
  }
}
