/**
 * The embedded API over a single-user backend: a small state machine on the
 * `initialized` flag and the last error message, and the query-result grid
 * the caller owns and frees.
 * The engine (bring-up, SPI, transactions, snapshots) is an oracle: each call
 * that reaches it receives the engine's answer as a parameter.
 */
module Embedded {
  import opened Wrappers
  import opened CStrings

  /** SPI's return codes used here (`SPI_OK_CONNECT`, `SPI_OK_SELECT`). */
  const SpiOkConnect := 1
  const SpiOkSelect := 5

  /** A C string the API allocated; `slot` tells apart the blocks of one result. */
  class CStr {
    const text: string
    /** `(-1, c)` for the name of column `c`, `(r, c)` for the cell at row `r`, column `c`. */
    ghost const slot: (int, int)

    constructor (text: string, ghost slot: (int, int))
      ensures this.text == text && this.slot == slot
    {
      this.text, this.slot := text, slot;
    }
  }

  /** The query result the caller receives and hands back to `FreeResult`. */
  class PgResult {
    var status: int
    /** `uint64` row count. */
    var rows: nat
    var cols: int
    var values: array?<array?<CStr?>>
    var colnames: array?<CStr?>
    /**
     * The column-name strings, the row arrays and the cell strings assigned
     * so far, in assignment order: a copy cut short by an exception leaves
     * fewer rows, or a shorter last row, than `rows` and `cols` say.
     */
    ghost var names: seq<CStr>
    ghost var rowArrays: seq<array<CStr?>>
    ghost var cells: seq<seq<CStr>>

    /** `malloc` followed by zero-filling. */
    constructor ()
      ensures status == 0 && rows == 0 && cols == 0 && values == null && colnames == null
      ensures names == [] && rowArrays == [] && cells == []
    {
      status, rows, cols, values, colnames := 0, 0, 0, null, null;
      names, rowArrays, cells := [], [], [];
    }
  }

  /** No block appears twice in a sequence of `free` calls. */
  predicate NoRepeats(s: seq<object>) {
    forall i, j :: 0 <= i < j < |s| ==> s[i] != s[j]
  }

  function Elems(s: seq<object>): set<object> {
    set o | o in s
  }

  lemma ElemsAppend(s: seq<object>, o: object)
    ensures Elems(s + [o]) == Elems(s) + {o}
  {
    assert forall x :: x in s + [o] <==> x in s || x == o;
  }

  lemma NoRepeatsAppend(s: seq<object>, t: seq<object>)
    requires NoRepeats(s) && NoRepeats(t) && Elems(s) !! Elems(t)
    ensures NoRepeats(s + t) && Elems(s + t) == Elems(s) + Elems(t)
  {
    forall i, j | 0 <= i < j < |s + t| ensures (s + t)[i] != (s + t)[j] {
      if i < |s| && j >= |s| {
        assert (s + t)[i] in Elems(s) && (s + t)[j] in Elems(t);
      }
    }
  }

  /** Each string is tagged `(row, index)`. */
  ghost predicate Tagged(a: seq<CStr>, row: int) {
    forall c :: 0 <= c < |a| ==> a[c].slot == (row, c)
  }

  /** The names of a result mirror its `colnames` array. */
  ghost predicate NamesBuilt(r: PgResult)
    reads r, r.colnames
  {
    NamesParts(r.cols, r.colnames, r.names)
  }

  ghost predicate NamesParts(cols: int, namesArr: array?<CStr?>, names: seq<CStr>)
    reads namesArr
  {
    0 <= cols &&
    (namesArr == null ==> names == []) &&
    (namesArr != null ==>
      namesArr.Length == cols == |names| && Tagged(names, -1) &&
      forall c :: 0 <= c < cols ==> namesArr[c] == names[c])
  }

  /** The grid of a result mirrors its `values` array, row by row. */
  ghost predicate RowsBuilt(r: PgResult)
    reads r, r.values, r.rowArrays
  {
    GridParts(r.rows, r.cols, r.colnames, r.values, r.rowArrays, r.cells)
  }

  ghost predicate GridParts(n: int, cols: int, namesArr: array?<CStr?>, vals: array?<array?<CStr?>>,
                            rows: seq<array<CStr?>>, cells: seq<seq<CStr>>)
    reads vals, rows
  {
    (vals == null ==> rows == [] && cells == []) &&
    (vals != null ==>
      vals.Length == n && Mirrors(vals, cols, rows, cells) && GridTagged(rows, cells) &&
      forall i :: 0 <= i < |rows| ==> rows[i] != namesArr)
  }

  /**
   * A well-formed result: its arrays have the sizes `rows` and `cols` say,
   * every entry is either assigned or null, and no block is shared.
   */
  ghost predicate Built(r: PgResult)
    reads r, r.colnames, r.values, r.rowArrays
  {
    NamesBuilt(r) && RowsBuilt(r)
  }

  /** The strings and then the array of each row, in row order. */
  ghost function RowsOrder(rows: seq<array<CStr?>>, cells: seq<seq<CStr>>): seq<object>
    requires |rows| == |cells|
  {
    if |rows| == 0 then [] else
      var n := |rows| - 1;
      RowsOrder(rows[..n], cells[..n]) + (cells[n] + [rows[n] as object])
  }

  ghost function GridElems(cells: seq<seq<CStr>>): set<object> {
    set i, c | 0 <= i < |cells| && 0 <= c < |cells[i]| :: cells[i][c] as object
  }

  lemma GridElemsAppend(cells: seq<seq<CStr>>, strs: seq<CStr>)
    ensures GridElems(cells + [strs]) == GridElems(cells) + Elems(strs)
  {
    var g := cells + [strs];
    forall o | o in GridElems(g) ensures o in GridElems(cells) + Elems(strs) {
      var i, c :| 0 <= i < |g| && 0 <= c < |g[i]| && o == g[i][c];
      if i < |cells| { assert o == cells[i][c]; } else { assert o == strs[c]; }
    }
    forall o | o in GridElems(cells) + Elems(strs) ensures o in GridElems(g) {
      if o in GridElems(cells) {
        var i, c :| 0 <= i < |cells| && 0 <= c < |cells[i]| && o == cells[i][c];
        assert o == g[i][c];
      } else {
        var c :| 0 <= c < |strs| && o == strs[c];
        assert o == g[|cells|][c];
      }
    }
  }

  /** The blocks owned by a result whose arrays and strings are the given ones. */
  ghost function Owns(res: PgResult, namesArr: array?<CStr?>, names: seq<CStr>,
                      vals: array?<array?<CStr?>>, rows: seq<array<CStr?>>, cells: seq<seq<CStr>>): set<object>
  {
    {res as object} +
    (if namesArr == null then {} else {namesArr as object} + Elems(names)) +
    (if vals == null then {} else {vals as object} + Elems(rows) + GridElems(cells))
  }

  /** The order in which those blocks are released. */
  ghost function Releases(res: PgResult, namesArr: array?<CStr?>, names: seq<CStr>,
                          vals: array?<array?<CStr?>>, rows: seq<array<CStr?>>, cells: seq<seq<CStr>>): seq<object>
    requires |rows| == |cells|
  {
    (if namesArr != null then names + [namesArr as object] else []) +
    (if vals != null then RowsOrder(rows, cells) + [vals as object] else []) +
    [res as object]
  }

  /** Every block a result owns. */
  ghost function Footprint(r: PgResult): set<object>
    reads r
  {
    Owns(r, r.colnames, r.names, r.values, r.rowArrays, r.cells)
  }

  /**
   * The blocks `pg_embedded_free_result` releases, in order: the column names
   * and their array, each row's cells followed by the row, the array of rows,
   * and the result itself.
   */
  ghost function ReleaseOrder(r: PgResult): seq<object>
    requires |r.rowArrays| == |r.cells|
    reads r
  {
    Releases(r, r.colnames, r.names, r.values, r.rowArrays, r.cells)
  }

  lemma Snoc(s: seq<object>, x: object, done: set<object>)
    requires NoRepeats(s) && Elems(s) == done && x !in done
    ensures NoRepeats(s + [x]) && Elems(s + [x]) == done + {x}
  {
    NoRepeatsAppend(s, [x]);
    assert Elems([x]) == {x};
  }

  lemma TaggedApart(a: seq<CStr>, row: int)
    requires Tagged(a, row)
    ensures NoRepeats(a)
  {
    forall i, j | 0 <= i < j < |a| ensures a[i] != a[j] {
      assert a[i].slot != a[j].slot;
    }
  }

  /** Distinct rows whose strings are tagged with their row number. */
  ghost predicate GridTagged(rows: seq<array<CStr?>>, cells: seq<seq<CStr>>) {
    |rows| == |cells| &&
    (forall i :: 0 <= i < |rows| ==> Tagged(cells[i], i)) &&
    (forall i, j :: 0 <= i < j < |rows| ==> rows[i] != rows[j])
  }

  lemma GridTaggedAppend(rows: seq<array<CStr?>>, cells: seq<seq<CStr>>, a: array<CStr?>, strs: seq<CStr>)
    requires GridTagged(rows, cells) && Tagged(strs, |rows|) && a !in rows
    ensures GridTagged(rows + [a], cells + [strs])
  {
  }

  lemma {:induction false} RowsOrderSound(rows: seq<array<CStr?>>, cells: seq<seq<CStr>>)
    requires GridTagged(rows, cells)
    ensures NoRepeats(RowsOrder(rows, cells))
    ensures Elems(RowsOrder(rows, cells)) == Elems(rows) + GridElems(cells)
  {
    if |rows| > 0 {
      var n := |rows| - 1;
      var rs, cs := rows[..n], cells[..n];
      assert GridTagged(rs, cs) by {
        forall i | 0 <= i < n ensures Tagged(cs[i], i) {
          assert cs[i] == cells[i];
        }
      }
      RowsOrderSound(rs, cs);
      TaggedApart(cells[n], n);
      forall i, c, c' | 0 <= i < n && 0 <= c < |cs[i]| && 0 <= c' < |cells[n]|
        ensures cs[i][c] != cells[n][c']
      {
        assert cs[i][c].slot != cells[n][c'].slot;
      }
      assert rows[n] !in Elems(cells[n]);
      Snoc(cells[n], rows[n], Elems(cells[n]));
      assert Elems(rs) + GridElems(cs) !! Elems(cells[n] + [rows[n] as object]);
      NoRepeatsAppend(RowsOrder(rs, cs), cells[n] + [rows[n] as object]);
      assert rows == rs + [rows[n]] && cells == cs + [cells[n]];
      assert GridElems(cells) == GridElems(cs) + Elems(cells[n]);
    }
  }

  lemma GridApartFromNames(names: seq<CStr>, cells: seq<seq<CStr>>)
    requires Tagged(names, -1) && forall i :: 0 <= i < |cells| ==> Tagged(cells[i], i)
    ensures Elems(names) !! GridElems(cells)
  {
    forall i, c, c' | 0 <= i < |cells| && 0 <= c < |cells[i]| && 0 <= c' < |names|
      ensures cells[i][c] != names[c']
    {
      assert cells[i][c].slot != names[c'].slot;
    }
  }

  /** Released in this order, every owned block goes exactly once. */
  lemma ReleasesSound(res: PgResult, namesArr: array?<CStr?>, names: seq<CStr>,
                      vals: array?<array?<CStr?>>, rows: seq<array<CStr?>>, cells: seq<seq<CStr>>)
    requires Tagged(names, -1) && GridTagged(rows, cells) && namesArr !in rows
    ensures NoRepeats(Releases(res, namesArr, names, vals, rows, cells))
    ensures Elems(Releases(res, namesArr, names, vals, rows, cells)) == Owns(res, namesArr, names, vals, rows, cells)
  {
    var first: seq<object> := [];
    if namesArr != null {
      TaggedApart(names, -1);
      Snoc(names, namesArr, Elems(names));
      first := names + [namesArr as object];
    }
    var both := first;
    if vals != null {
      RowsOrderSound(rows, cells);
      Snoc(RowsOrder(rows, cells), vals, Elems(rows) + GridElems(cells));
      GridApartFromNames(names, cells);
      NoRepeatsAppend(first, RowsOrder(rows, cells) + [vals as object]);
      both := first + (RowsOrder(rows, cells) + [vals as object]);
    }
    Snoc(both, res, Elems(both));
  }

  /** Every block of a built result is released, and none twice. */
  lemma ReleaseOrderSound(r: PgResult)
    requires Built(r)
    ensures NoRepeats(ReleaseOrder(r)) && Elems(ReleaseOrder(r)) == Footprint(r)
  {
    assert GridTagged(r.rowArrays, r.cells);
    assert r.colnames !in r.rowArrays;
    ReleasesSound(r, r.colnames, r.names, r.values, r.rowArrays, r.cells);
  }

  /** `free` every string of `a`, skipping null entries, then `a` itself. */
  method FreeStrings(a: array<CStr?>, n: int, ghost strs: seq<CStr>) returns (ghost freed: seq<object>)
    requires RowHolds(a, n, strs)
    ensures freed == strs + [a as object]
  {
    freed := [];
    var col := 0;
    while col < n
      invariant 0 <= col <= n
      invariant freed == strs[..if col < |strs| then col else |strs|]
    {
      if a[col] != null {
        freed := freed + [a[col] as object];
      }
      col := col + 1;
    }
    freed := freed + [a as object];
  }

  /**
   * The row arrays of `vals` and their strings are mirrored by `rows` and
   * `cells`: the assigned rows come first, each with its assigned cells
   * first, and every entry not assigned is null.
   */
  ghost predicate Mirrors(vals: array<array?<CStr?>>, cols: int, rows: seq<array<CStr?>>, cells: seq<seq<CStr>>)
    reads vals, rows
  {
    |rows| == |cells| <= vals.Length &&
    (forall i :: 0 <= i < |rows| ==> vals[i] == rows[i] && RowHolds(rows[i], cols, cells[i])) &&
    forall i :: |rows| <= i < vals.Length ==> vals[i] == null
  }

  /** Array `a` of width `cols` holds `strs` first and null after them. */
  ghost predicate RowHolds(a: array<CStr?>, cols: int, strs: seq<CStr>)
    reads a
  {
    a.Length == cols && |strs| <= cols &&
    (forall c :: 0 <= c < |strs| ==> a[c] == strs[c]) &&
    forall c :: |strs| <= c < cols ==> a[c] == null
  }

  /** `free` each non-null row's strings and the row, then the array of rows. */
  method FreeGrid(vals: array<array?<CStr?>>, cols: int, ghost rows: seq<array<CStr?>>, ghost cells: seq<seq<CStr>>)
    returns (ghost freed: seq<object>)
    requires Mirrors(vals, cols, rows, cells)
    ensures freed == RowsOrder(rows, cells) + [vals as object]
  {
    freed := [];
    var row := 0;
    while row < vals.Length
      invariant 0 <= row <= vals.Length
      invariant row <= |rows| ==> freed == RowsOrder(rows[..row], cells[..row])
      invariant row > |rows| ==> freed == RowsOrder(rows, cells)
    {
      if row < |rows| {
        assert rows[..row + 1][..row] == rows[..row] && cells[..row + 1][..row] == cells[..row];
      } else if row == |rows| {
        assert rows[..row] == rows && cells[..row] == cells;
      }
      if vals[row] != null {
        var more := FreeStrings(vals[row], cols, cells[row]);
        freed := freed + more;
      }
      row := row + 1;
    }
    if row == |rows| {
      assert rows[..row] == rows && cells[..row] == cells;
    }
    freed := freed + [vals as object];
  }

  /**
   * `pg_embedded_free_result`: nothing for a null result; otherwise the
   * blocks are released in `ReleaseOrder`, every one the result owns
   * exactly once.
   */
  method FreeResult(r: PgResult?) returns (ghost freed: seq<object>)
    requires r != null ==> Built(r)
    ensures r == null ==> freed == []
    ensures r != null ==> freed == ReleaseOrder(r) && NoRepeats(freed) && Elems(freed) == Footprint(r)
  {
    freed := [];
    if r == null {
      return;
    }
    ReleaseOrderSound(r);
    ghost var expected := ReleaseOrder(r);
    ghost var names, rows, cells := r.names, r.rowArrays, r.cells;
    var vals := r.values;
    assert vals != null ==> Mirrors(vals, r.cols, rows, cells);
    if r.colnames != null {
      freed := FreeStrings(r.colnames, r.cols, names);
    }
    if vals != null {
      var more := FreeGrid(vals, r.cols, rows, cells);
      freed := freed + more;
    }
    freed := freed + [r as object];
    assert freed == expected;
  }

  /** The texts of a sequence of strings. */
  ghost function Texts(s: seq<CStr>): seq<string> {
    seq(|s|, i requires 0 <= i < |s| => s[i].text)
  }

  /**
   * Allocate a zero-filled array for `texts` and `strdup` the first `upto`
   * of them into it, tagging the copies `(tag, index)`.
   */
  method CopyStrings(texts: seq<string>, tag: int, upto: int) returns (a: array<CStr?>, ghost strs: seq<CStr>)
    requires 0 <= upto <= |texts|
    ensures fresh(a) && a.Length == |texts| && |strs| == upto && Texts(strs) == texts[..upto] && Tagged(strs, tag)
    ensures RowHolds(a, |texts|, strs) && fresh(Elems(strs))
  {
    a := new CStr?[|texts|](_ => null);
    strs := [];
    var col := 0;
    while col < upto
      invariant 0 <= col <= upto && |strs| == col
      invariant Texts(strs) == texts[..col] && Tagged(strs, tag)
      invariant forall c :: 0 <= c < col ==> a[c] == strs[c]
      invariant forall c :: col <= c < |texts| ==> a[c] == null
      invariant fresh(Elems(strs))
    {
      var copy := new CStr(texts[col], (tag, col));
      a[col] := copy;
      ElemsAppend(strs, copy);
      strs := strs + [copy];
      col := col + 1;
    }
  }

  /** The text a cell is copied as: the value's text, or `"NULL"` for a null value. */
  function CellText(v: Option<string>): string {
    if v.None? then "NULL" else v.value
  }

  function RowTexts(tuple: seq<Option<string>>): seq<string> {
    seq(|tuple|, c requires 0 <= c < |tuple| => CellText(tuple[c]))
  }

  /**
   * Where copying a table stops when the engine throws: `Some((row, col))`
   * when converting the value at `row`, `col` raised an error, `None` when
   * every value was converted.
   */
  type Fault = Option<(nat, nat)>

  /** The texts of tuple `i` that are copied before `fault` stops the copy. */
  function CopiedTexts(tuple: seq<Option<string>>, i: int, fault: Fault): (texts: seq<string>)
    ensures texts <= RowTexts(tuple)
    ensures fault.None? || fault.value.0 != i ==> texts == RowTexts(tuple)
  {
    if fault.Some? && fault.value.0 == i && fault.value.1 <= |tuple| then RowTexts(tuple)[..fault.value.1] else RowTexts(tuple)
  }

  /** A fault lies inside a table of `n` tuples of width `cols`. */
  predicate FaultWithin(fault: Fault, n: int, cols: int) {
    fault.Some? ==> fault.value.0 < n && fault.value.1 < cols
  }

  /** Store the next row array in the first null entry of `vals`. */
  method PlaceRow(vals: array<array?<CStr?>>, cols: int, ghost rows: seq<array<CStr?>>, ghost cells: seq<seq<CStr>>,
                  row: int, a: array<CStr?>, ghost strs: seq<CStr>)
    requires Mirrors(vals, cols, rows, cells) && row == |rows| < vals.Length && RowHolds(a, cols, strs)
    modifies vals
    ensures Mirrors(vals, cols, rows + [a], cells + [strs])
  {
    vals[row] := a;
  }

  /**
   * Allocate the zero-filled array of rows and copy each tuple into a fresh,
   * zero-filled row array, until `fault` stops the copy: the row it lies in
   * is allocated and filled up to the failing column, and later rows are
   * never allocated.
   */
  method CopyGrid(tuples: seq<seq<Option<string>>>, cols: int, fault: Fault)
    returns (vals: array<array?<CStr?>>, ghost rows: seq<array<CStr?>>, ghost cells: seq<seq<CStr>>)
    requires forall i :: 0 <= i < |tuples| ==> |tuples[i]| == cols
    requires FaultWithin(fault, |tuples|, cols)
    ensures fresh(vals) && vals.Length == |tuples| && Mirrors(vals, cols, rows, cells) && GridTagged(rows, cells)
    ensures |rows| == if fault.Some? then fault.value.0 + 1 else |tuples|
    ensures forall i :: 0 <= i < |rows| ==> Texts(cells[i]) == CopiedTexts(tuples[i], i, fault)
    ensures fresh(Elems(rows)) && fresh(GridElems(cells))
  {
    vals := new array?<CStr?>[|tuples|](_ => null);
    rows, cells := [], [];
    var last := if fault.Some? then fault.value.0 + 1 else |tuples|;
    var row := 0;
    while row < last
      invariant 0 <= row <= last && |rows| == row
      invariant Mirrors(vals, cols, rows, cells) && GridTagged(rows, cells)
      invariant forall i :: 0 <= i < row ==> Texts(cells[i]) == CopiedTexts(tuples[i], i, fault)
      invariant fresh(Elems(rows)) && fresh(GridElems(cells))
    {
      var upto := if fault.Some? && fault.value.0 == row then fault.value.1 else cols;
      var a, strs := CopyStrings(RowTexts(tuples[row]), row, upto);
      assert a !in rows by {
        forall i | 0 <= i < |rows| ensures rows[i] != a {
          assert rows[i] in Elems(rows);
        }
      }
      GridTaggedAppend(rows, cells, a, strs);
      PlaceRow(vals, cols, rows, cells, row, a, strs);
      ElemsAppend(rows, a);
      GridElemsAppend(cells, strs);
      rows, cells := rows + [a], cells + [strs];
      row := row + 1;
    }
  }

  /** A tuple table as SPI hands it over: attribute names and rows of nullable values. */
  datatype TupleTable = TupleTable(attnames: seq<string>, tuples: seq<seq<Option<string>>>)

  /**
   * What the engine does with a query: throw before anything is copied,
   * return a code, a processed count and maybe a table, or return
   * `SPI_OK_SELECT` with a table and then throw while the value at `row`,
   * `col` is converted to text.
   */
  datatype SpiOutcome =
    | Raises(message: string)
    | Executes(code: int, processed: nat, table: Option<TupleTable>)
    | RaisesInCopy(processed: nat, t: TupleTable, row: nat, col: nat, message: string)

  /** The table holds `n` tuples of the declared width. */
  predicate TableFits(t: TupleTable, n: int) {
    |t.tuples| == n && forall i :: 0 <= i < |t.tuples| ==> |t.tuples[i]| == |t.attnames|
  }

  /** A `SPI_OK_SELECT` table fits the processed count, and a conversion error lies inside it. */
  predicate SpiConsistent(o: SpiOutcome) {
    match o
    case Raises(_) => true
    case Executes(code, processed, table) => code == SpiOkSelect && table.Some? ==> TableFits(table.value, processed)
    case RaisesInCopy(processed, t, row, col, _) => TableFits(t, processed) && row < processed && col < |t.attnames|
  }

  /** How the engine bring-up in `pg_embedded_init` ends: an error, or `SPI_connect`'s code. */
  datatype BringUp = Throws(message: string) | Connected(spiCode: int)

  /** `exec` reaches `PopActiveSnapshot` only when SPI returned a non-negative code. */
  predicate Completes(o: SpiOutcome) {
    o.Executes? && o.code >= 0
  }

  /** The error message after `exec` ran a query, given the message before. */
  function ExecMessage(before: string, o: SpiOutcome): string {
    match o
    case Raises(m) => "Query failed: " + m
    case RaisesInCopy(_, _, _, _, m) => "Query failed: " + m
    case Executes(code, _, _) => if code < 0 then "Query execution failed with code: " + FormatInt(code) else before
  }

  /** Whether `exec` copies a table into the result. */
  predicate Selects(o: SpiOutcome) {
    o.Executes? && o.code == SpiOkSelect && o.table.Some?
  }

  /** The result `exec` hands back for the engine's answer `o`. */
  ghost predicate Materialised(r: PgResult, o: SpiOutcome)
    reads r
  {
    match o
    case Raises(_) =>
      r.status == -1 && r.rows == 0 && r.cols == 0 && r.values == null && r.colnames == null
    case Executes(code, processed, table) =>
      r.status == code && r.rows == processed &&
      if Selects(o) then Copied(r, table.value, None)
      else r.cols == 0 && r.values == null && r.colnames == null
    case RaisesInCopy(processed, t, row, col, _) =>
      r.status == -1 && r.rows == processed &&
      TableFits(t, processed) && row < processed && col < |t.attnames| &&
      Copied(r, t, Some((row, col)))
  }

  /**
   * `r` holds the column names of `t` and its tuples as far as `fault` let
   * the copy go: every row before the fault in full, the faulting row up to
   * the failing column, nothing after it.
   */
  ghost predicate Copied(r: PgResult, t: TupleTable, fault: Fault)
    reads r
  {
    r.cols == |t.attnames| && r.colnames != null && r.values != null && TableCopied(r.names, r.cells, t, fault)
  }

  ghost predicate TableCopied(names: seq<CStr>, cells: seq<seq<CStr>>, t: TupleTable, fault: Fault) {
    Texts(names) == t.attnames &&
    |cells| == (if fault.Some? then fault.value.0 + 1 else |t.tuples|) &&
    forall i :: 0 <= i < |cells| && i < |t.tuples| ==> Texts(cells[i]) == CopiedTexts(t.tuples[i], i, fault)
  }

  /** Copy the column names and then the tuples of `t`, until `fault` stops the copy. */
  method CopyTable(t: TupleTable, fault: Fault)
    returns (names: array<CStr?>, ghost strs: seq<CStr>, vals: array<array?<CStr?>>,
             ghost rows: seq<array<CStr?>>, ghost cells: seq<seq<CStr>>)
    requires TableFits(t, |t.tuples|) && FaultWithin(fault, |t.tuples|, |t.attnames|)
    ensures NamesParts(|t.attnames|, names, strs) && GridParts(|t.tuples|, |t.attnames|, names, vals, rows, cells)
    ensures TableCopied(strs, cells, t, fault)
    ensures fresh(names) && fresh(vals) && fresh(Elems(strs)) && fresh(Elems(rows)) && fresh(GridElems(cells))
  {
    var cols := |t.attnames|;
    names, strs := CopyStrings(t.attnames, -1, cols);
    assert t.attnames[..cols] == t.attnames;
    vals, rows, cells := CopyGrid(t.tuples, cols, fault);
    forall i | 0 <= i < |rows| ensures rows[i] != names {
      assert rows[i] in Elems(rows);
    }
  }

  /**
   * Copy the column names and the tuples of `t` into the zero-filled result
   * `r`, until `fault` stops the copy.
   */
  method Materialise(r: PgResult, t: TupleTable, fault: Fault)
    requires TableFits(t, r.rows) && FaultWithin(fault, |t.tuples|, |t.attnames|)
    requires r.values == null && r.colnames == null && r.names == [] && r.rowArrays == [] && r.cells == []
    modifies r
    ensures r.status == old(r.status) && r.rows == old(r.rows) && r.cols == |t.attnames|
    ensures NamesBuilt(r)
    ensures RowsBuilt(r)
    ensures Copied(r, t, fault)
    ensures fresh(Footprint(r) - {r})
  {
    var names, strs, vals, rows, cells := CopyTable(t, fault);
    r.cols, r.colnames, r.values := |t.attnames|, names, vals;
    r.names, r.rowArrays, r.cells := strs, rows, cells;
  }

  /**
   * The result `exec` allocates for the engine's answer: zero-filled, then the
   * code and the processed count, then the copied table for a `SELECT`; an
   * exception during the copy leaves what was copied so far and sets the
   * status to -1.
   */
  method Answer(spi: SpiOutcome) returns (result: PgResult)
    requires SpiConsistent(spi)
    ensures fresh(Footprint(result)) && Built(result) && Materialised(result, spi)
  {
    result := new PgResult();
    match spi
    case Raises(_) =>
      result.status := -1;
      assert Footprint(result) == {result};
    case Executes(code, processed, table) =>
      result.status, result.rows := code, processed;
      if code >= 0 && code == SpiOkSelect && table.Some? {
        Materialise(result, table.value, None);
      } else {
        assert Footprint(result) == {result};
      }
    case RaisesInCopy(processed, t, row, col, _) =>
      // The catch block's status; the copy itself leaves the status alone.
      result.status, result.rows := -1, processed;
      Materialise(result, t, Some((row, col)));
  }

  /**
   * Every pointer `pg_embedded_free_result` reads was assigned by `exec`.
   * Where the name array, the array of rows or a row comes from `malloc`,
   * an entry never assigned holds an indeterminate pointer, which
   * `free_result` tests against null and passes to `free`.
   */
  ghost predicate FreeReadsAssigned(r: PgResult)
    reads r
  {
    (r.colnames != null ==> |r.names| == r.cols) &&
    (r.values != null ==> |r.rowArrays| == r.rows && forall i :: 0 <= i < |r.cells| ==> |r.cells[i]| == r.cols)
  }

  /** When nothing throws, `exec` assigns every entry of the result, so `malloc` is harmless there. */
  lemma CompleteCopyAssigned(r: PgResult, o: SpiOutcome)
    requires o.Executes? && SpiConsistent(o) && Built(r) && Materialised(r, o)
    ensures FreeReadsAssigned(r)
  {
    if Selects(o) {
      var t := o.table.value;
      forall i | 0 <= i < |r.cells| ensures |r.cells[i]| == r.cols {
        assert |Texts(r.cells[i])| == |CopiedTexts(t.tuples[i], i, None)|;
      }
    }
  }

  /**
   * As written, an exception while the value at `row`, `col` is converted
   * leaves that cell unassigned in the result `exec` returns, while
   * `free_result` reads and frees it: with the row from `malloc`, that is an
   * indeterminate pointer.
   */
  lemma CopyFaultLeavesUnassigned(r: PgResult, o: SpiOutcome)
    requires o.RaisesInCopy? && Materialised(r, o)
    ensures r.values != null && o.row < r.rows && o.col < r.cols
    ensures o.row < |r.cells| && |r.cells[o.row]| == o.col
    ensures !FreeReadsAssigned(r)
  {
    assert |Texts(r.cells[o.row])| == |CopiedTexts(o.t.tuples[o.row], o.row, Some((o.row, o.col)))|;
  }

  /**
   * After an exception while the value at `row`, `col` is converted, the
   * result holds every earlier row in full, the faulting row up to the
   * failing column, and nothing after it.
   */
  lemma FaultCopyContents(r: PgResult, o: SpiOutcome)
    requires o.RaisesInCopy? && Materialised(r, o)
    ensures r.status == -1 && r.rows == o.processed && r.cols == |o.t.attnames| && Texts(r.names) == o.t.attnames
    ensures |r.cells| == o.row + 1
    ensures forall i :: 0 <= i < o.row ==> Texts(r.cells[i]) == RowTexts(o.t.tuples[i])
    ensures Texts(r.cells[o.row]) == RowTexts(o.t.tuples[o.row])[..o.col]
  {
    assert CopiedTexts(o.t.tuples[o.row], o.row, Some((o.row, o.col))) == RowTexts(o.t.tuples[o.row])[..o.col];
  }

  /** The transaction-control entry points and the statement each runs. */
  datatype TxCommand = Begin | Commit | Rollback

  function Sql(c: TxCommand): string {
    match c
    case Begin => "BEGIN"
    case Commit => "COMMIT"
    case Rollback => "ROLLBACK"
  }

  /**
   * The process-wide state of the API: whether `pg_embedded_init` has
   * succeeded, the last error message, and the engine state the calls here
   * drive directly (whether a transaction is open, the active-snapshot depth).
   */
  class Embedded {
    var initialized: bool
    var errorMsg: string
    var inTransaction: bool
    var snapshots: nat
    /** How many transactions `exec` has started. */
    ghost var starts: nat

    /** The static initial values: not initialized, an empty message. */
    constructor ()
      ensures !initialized && errorMsg == "" && !inTransaction && snapshots == 0 && starts == 0
    {
      initialized, errorMsg, inTransaction, snapshots := false, "", false, 0;
      starts := 0;
    }

    /** `pg_embedded_init`; `bringUp` is how the engine start-up ends. */
    method Init(dataDir: Option<string>, dbname: Option<string>, username: Option<string>, bringUp: BringUp)
      returns (rc: int)
      modifies this
      ensures rc == 0 <==> initialized
      ensures rc == 0 || rc == -1
      ensures old(initialized) ==> initialized && errorMsg == "Already initialized"
      ensures !old(initialized) && (dataDir.None? || dbname.None? || username.None?) ==>
        rc == -1 && errorMsg == "Invalid arguments"
      ensures !old(initialized) && dataDir.Some? && dbname.Some? && username.Some? ==>
        match bringUp
        case Throws(m) => rc == -1 && errorMsg == "Initialization failed: " + m
        case Connected(code) =>
          if code == SpiOkConnect then rc == 0 && errorMsg == old(errorMsg)
          else rc == -1 && errorMsg == "SPI_connect failed"
      ensures inTransaction == old(inTransaction) && snapshots == old(snapshots) && starts == old(starts)
    {
      if initialized {
        errorMsg := "Already initialized";
        return 0;
      }
      if dataDir.None? || dbname.None? || username.None? {
        errorMsg := "Invalid arguments";
        return -1;
      }
      match bringUp
      case Throws(m) =>
        errorMsg := "Initialization failed: " + m;
        rc := -1;
      case Connected(code) =>
        if code != SpiOkConnect {
          errorMsg := "SPI_connect failed";
          return -1;
        }
        initialized := true;
        rc := 0;
    }

    /**
     * `pg_embedded_exec`; `spi` is what `SPI_execute` does with the query.
     * A transaction is started when none is open and is never ended here; the
     * snapshot pushed before the query is popped only when SPI returned a
     * non-negative code.
     */
    method Exec(query: Option<string>, spi: SpiOutcome) returns (result: PgResult?)
      requires SpiConsistent(spi)
      modifies this
      ensures initialized == old(initialized)
      ensures !old(initialized) || query.None? ==>
        result == null && inTransaction == old(inTransaction) && snapshots == old(snapshots) &&
        errorMsg == if !old(initialized) then "Not initialized" else "NULL query"
      ensures old(initialized) && query.Some? ==>
        result != null && fresh(Footprint(result)) && Built(result) && Materialised(result, spi) &&
        inTransaction && errorMsg == ExecMessage(old(errorMsg), spi) &&
        snapshots == old(snapshots) + (if Completes(spi) then 0 else 1)
      ensures starts == old(starts) + (if old(initialized) && query.Some? && !old(inTransaction) then 1 else 0)
    {
      if !initialized {
        errorMsg := "Not initialized";
        return null;
      }
      if query.None? {
        errorMsg := "NULL query";
        return null;
      }
      if !inTransaction {
        inTransaction := true;
        starts := starts + 1;
      }
      snapshots := snapshots + 1;
      result := Answer(spi);
      errorMsg := ExecMessage(errorMsg, spi);
      if Completes(spi) {
        snapshots := snapshots - 1;
      }
    }

    /**
     * `pg_embedded_begin`, `pg_embedded_commit` and `pg_embedded_rollback`:
     * run the command through `Exec` and free the result on every path.
     */
    method Transaction(command: TxCommand, spi: SpiOutcome) returns (rc: int, ghost res: PgResult?, ghost freed: seq<object>)
      requires SpiConsistent(spi)
      modifies this
      ensures rc == 0 <==> old(initialized) && Completes(spi)
      ensures rc == 0 || rc == -1
      ensures initialized == old(initialized)
      ensures errorMsg == if old(initialized) then ExecMessage(old(errorMsg), spi) else "Not initialized"
      ensures inTransaction == (old(inTransaction) || old(initialized))
      ensures snapshots == old(snapshots) + (if old(initialized) && !Completes(spi) then 1 else 0)
      ensures starts == old(starts) + (if old(initialized) && !old(inTransaction) then 1 else 0)
      ensures res != null <==> old(initialized)
      ensures res == null ==> freed == []
      ensures res != null ==> fresh(Footprint(res)) && NoRepeats(freed) && Elems(freed) == Footprint(res)
    {
      if !initialized {
        errorMsg := "Not initialized";
        return -1, null, [];
      }
      var result := Exec(Some(Sql(command)), spi);
      res := result;
      if result == null || result.status < 0 {
        freed := FreeResult(result);
        return -1, res, freed;
      }
      freed := FreeResult(result);
      rc := 0;
    }

    /** `pg_embedded_error_message`: the last message set. */
    method ErrorMessage() returns (m: string)
      ensures m == errorMsg
    {
      m := errorMsg;
    }

    /**
     * `pg_embedded_shutdown`: nothing when not initialized; otherwise SPI is
     * finished, the backend exits and the flag is cleared.
     */
    method Shutdown()
      modifies this
      ensures !initialized
      ensures errorMsg == old(errorMsg) && inTransaction == old(inTransaction) && snapshots == old(snapshots)
      ensures starts == old(starts)
    {
      if !initialized {
        return;
      }
      initialized := false;
    }
  }
}
