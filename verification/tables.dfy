/**
 The rows the scrapers read out of the study-plan tables: every `tbody tr`
 of every `table` as the `textContent` of its cells, the trimmed course
 number and name of the rows with enough cells, and the `id → name` object
 `scrapeLocals` folds them into.
 */
module Tables {
  import opened Text

  /** The `textContent` of the `td` cells of one row. */
  type Row = seq<string>

  /** The rows of one `table`, in document order. */
  type Table = seq<Row>

  /** Which cell holds the course number and which the name. */
  datatype Layout = Layout(idCell: nat, nameCell: nat) {
    /** The `cells.length >= n` test: both cells the layout reads exist. */
    predicate Fits(row: Row) {
      idCell < |row| && nameCell < |row|
    }
  }

  /** A trimmed course number and name. */
  datatype Cell = Cell(id: string, name: string)

  function CellOf(row: Row, layout: Layout): Cell
    requires layout.Fits(row)
  {
    Cell(Trim(row[layout.idCell]), Trim(row[layout.nameCell]))
  }

  /** Row `i` has enough cells and reads as `c`. */
  predicate ReadsAs(rows: seq<Row>, layout: Layout, i: int, c: Cell) {
    0 <= i < |rows| && layout.Fits(rows[i]) && CellOf(rows[i], layout) == c
  }

  /** The cells of the rows with enough cells, in row order. */
  function Cells(rows: seq<Row>, layout: Layout): (cs: seq<Cell>)
    ensures |cs| <= |rows|
  {
    if rows == [] then []
    else
      var rest := Cells(rows[..|rows| - 1], layout);
      var row := rows[|rows| - 1];
      if layout.Fits(row) then rest + [CellOf(row, layout)] else rest
  }

  /** The cells of one more row: its cell, if it has enough cells, goes at the end. */
  lemma CellsSnoc(rows: seq<Row>, row: Row, layout: Layout)
    ensures layout.Fits(row) ==> Cells(rows + [row], layout) == Cells(rows, layout) + [CellOf(row, layout)]
    ensures !layout.Fits(row) ==> Cells(rows + [row], layout) == Cells(rows, layout)
  {
    assert (rows + [row])[..|rows|] == rows;
  }

  /** Every row with enough cells gives its cell, and every cell comes from such a row. */
  lemma {:induction false} CellsSpec(rows: seq<Row>, layout: Layout)
    ensures forall i :: 0 <= i < |rows| && layout.Fits(rows[i]) ==> CellOf(rows[i], layout) in Cells(rows, layout)
    ensures forall c :: c in Cells(rows, layout) ==> exists i :: ReadsAs(rows, layout, i, c)
  {
    if rows != [] {
      var init := rows[..|rows| - 1];
      var row := rows[|rows| - 1];
      var rest := Cells(init, layout);
      var cs := Cells(rows, layout);
      CellsSpec(init, layout);
      assert rows == init + [row];
      CellsSnoc(init, row, layout);
      assert forall x :: x in rest ==> x in cs;
      forall i | 0 <= i < |rows| && layout.Fits(rows[i])
        ensures CellOf(rows[i], layout) in cs
      {
        if i < |init| {
          assert rows[i] == init[i];
        }
      }
      forall c | c in cs
        ensures exists i :: ReadsAs(rows, layout, i, c)
      {
        if c in rest {
          var i :| ReadsAs(init, layout, i, c);
          assert rows[i] == init[i];
          assert ReadsAs(rows, layout, i, c);
        } else {
          assert ReadsAs(rows, layout, |rows| - 1, c);
        }
      }
    }
  }

  /** Reading rows is a homomorphism: the cells of a concatenation are the concatenated cells. */
  lemma {:induction false} CellsAppend(a: seq<Row>, b: seq<Row>, layout: Layout)
    ensures Cells(a + b, layout) == Cells(a, layout) + Cells(b, layout)
    decreases |b|
  {
    if b == [] {
      assert a + b == a;
    } else {
      var b' := b[..|b| - 1];
      assert (a + b)[..|a + b| - 1] == a + b';
      assert (a + b)[|a + b| - 1] == b[|b| - 1];
      CellsAppend(a, b', layout);
    }
  }

  /** The rows of all tables in document order, as `querySelectorAll('table tbody tr')` yields them. */
  function Flatten(tables: seq<Table>): seq<Row> {
    if tables == [] then [] else Flatten(tables[..|tables| - 1]) + tables[|tables| - 1]
  }

  lemma FlattenSnoc(tables: seq<Table>, start: nat, i: nat)
    requires start <= i < |tables|
    ensures Flatten(tables[start..i + 1]) == Flatten(tables[start..i]) + tables[i]
  {
    var t := tables[start..i + 1];
    assert t[..|t| - 1] == tables[start..i];
    assert t[|t| - 1] == tables[i];
  }

  /** The tables the loop `for (let i = start; i < tables.length; i++)` visits. */
  function From(tables: seq<Table>, start: nat): (r: seq<Table>)
    ensures start < |tables| ==> r == tables[start..]
    ensures |tables| <= start ==> r == []
  {
    if start < |tables| then tables[start..] else []
  }

  /**
   The subject loops of `scrapeAndGenerateJSON`: for each table from `start`,
   for each row, the trimmed cells of rows with enough cells, in order.
   */
  method Scrape(tables: seq<Table>, start: nat, layout: Layout) returns (cs: seq<Cell>)
    ensures cs == Cells(Flatten(From(tables, start)), layout)
  {
    cs := [];
    if |tables| <= start {
      return;
    }
    var i := start;
    while i < |tables|
      invariant start <= i <= |tables|
      invariant cs == Cells(Flatten(tables[start..i]), layout)
    {
      cs := AppendTableCells(cs, Flatten(tables[start..i]), tables[i], layout);
      FlattenSnoc(tables, start, i);
      i := i + 1;
    }
    assert tables[start..i] == tables[start..];
  }

  lemma CellsPrefixStep(done: seq<Row>, table: Table, j: nat, layout: Layout)
    requires j < |table|
    ensures layout.Fits(table[j]) ==> Cells(done + table[..j + 1], layout) == Cells(done + table[..j], layout) + [CellOf(table[j], layout)]
    ensures !layout.Fits(table[j]) ==> Cells(done + table[..j + 1], layout) == Cells(done + table[..j], layout)
  {
    assert done + table[..j + 1] == (done + table[..j]) + [table[j]];
    CellsSnoc(done + table[..j], table[j], layout);
  }

  /** The inner loop of the scrape: the cells of one more table's rows, in order. */
  method AppendTableCells(cs: seq<Cell>, ghost done: seq<Row>, table: Table, layout: Layout) returns (r: seq<Cell>)
    requires cs == Cells(done, layout)
    ensures r == Cells(done + table, layout)
  {
    r := cs;
    var j := 0;
    assert done + table[..j] == done;
    while j < |table|
      invariant 0 <= j <= |table|
      invariant r == Cells(done + table[..j], layout)
    {
      var row := table[j];
      CellsPrefixStep(done, table, j, layout);
      if layout.Fits(row) {
        r := r + [CellOf(row, layout)];
      }
      j := j + 1;
    }
    assert table[..j] == table;
  }

  /** `i` is the last position whose cell carries the id `k`. */
  predicate IsLast(cs: seq<Cell>, k: string, i: int) {
    0 <= i < |cs| && cs[i].id == k && forall j :: i < j < |cs| ==> cs[j].id != k
  }

  /**
   `dataMap[id] = name` over the cells in order: the keys are exactly the ids
   read, and a repeated id keeps the name of its last row.
   */
  function FoldCells(cs: seq<Cell>): (m: map<string, string>)
    ensures forall k :: k in m <==> exists i :: 0 <= i < |cs| && cs[i].id == k
    ensures forall k, i :: IsLast(cs, k, i) ==> k in m && m[k] == cs[i].name
  {
    if cs == [] then map[]
    else
      var init := cs[..|cs| - 1];
      var last := cs[|cs| - 1];
      var m := FoldCells(init)[last.id := last.name];
      assert forall i :: 0 <= i < |init| ==> init[i] == cs[i];
      forall k, i | IsLast(cs, k, i) && k != last.id
        ensures IsLast(init, k, i)
      {
        assert i < |init|;
      }
      m
  }

  /**
   The fold forgets order only up to the last write: a cell whose id does not
   reappear later is read back from the map.
   */
  lemma FoldCellsLastWins(cs: seq<Cell>, c: Cell, later: seq<Cell>)
    requires forall j :: 0 <= j < |later| ==> later[j].id != c.id
    ensures var m := FoldCells(cs + [c] + later); c.id in m && m[c.id] == c.name
  {
    var all := cs + [c] + later;
    assert all[|cs|] == c;
    forall j | |cs| < j < |all|
      ensures all[j].id != c.id
    {
      assert all[j] == later[j - |cs| - 1];
    }
    assert IsLast(all, c.id, |cs|);
  }
}
