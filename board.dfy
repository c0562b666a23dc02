/**
 * Row-major scans of a character map: both programs read a map text into
 * rows of characters and then walk it row by row, column by column, to find
 * the cells holding a given character.
 */
module Board {
  import opened Grid
  import opened Text
  import opened Wrappers

  /** The rows of a map text: surrounding whitespace removed, then cut at each newline. */
  function ParseRows(text: string): (rows: seq<string>)
    ensures |rows| >= 1
    ensures forall k :: 0 <= k < |rows| ==> '\n' !in rows[k]
  {
    Split(Strip(text), '\n')
  }

  /** `(i, j)` names a character of `rows` (rows may differ in length). */
  predicate OnBoard(rows: seq<string>, p: Pos) {
    0 <= p.0 < |rows| && 0 <= p.1 < |rows[p.0]|
  }

  /** Every position of the map. */
  function Domain(rows: seq<string>): set<Pos> {
    set i, j | 0 <= i < |rows| && 0 <= j < |rows[i]| :: (i, j)
  }

  lemma DomainSpec(rows: seq<string>, p: Pos)
    ensures p in Domain(rows) <==> OnBoard(rows, p)
  {
    if OnBoard(rows, p) {
      assert (p.0, p.1) in Domain(rows);
    }
  }

  /** Strict row-major order: earlier row, or same row and earlier column. */
  predicate Before(p: Pos, q: Pos) {
    p.0 < q.0 || (p.0 == q.0 && p.1 < q.1)
  }

  predicate RowMajor(cells: seq<Pos>) {
    forall a, b :: 0 <= a < b < |cells| ==> Before(cells[a], cells[b])
  }

  /** The positions `(i, j)` of row `i` that hold `c`, left to right. */
  function RowCells(row: string, i: int, c: char): seq<Pos>
    decreases |row|
  {
    if row == [] then []
    else RowCells(row[..|row| - 1], i, c) + (if row[|row| - 1] == c then [(i, |row| - 1)] else [])
  }

  /** The positions of the map that hold `c`, in row-major order. */
  function Cells(rows: seq<string>, c: char): seq<Pos>
    decreases |rows|
  {
    if rows == [] then []
    else Cells(rows[..|rows| - 1], c) + RowCells(rows[|rows| - 1], |rows| - 1, c)
  }

  /** The last element of a scan, if any: what a loop that overwrites a variable on every hit leaves behind. */
  function LastOf(cells: seq<Pos>): (r: Option<Pos>)
    ensures r.None? <==> cells == []
    ensures r.Some? ==> r.value in cells
  {
    if cells == [] then None else Some(cells[|cells| - 1])
  }

  lemma {:induction false} RowCellsSpec(row: string, i: int, c: char)
    ensures forall p :: p in RowCells(row, i, c) <==> p.0 == i && 0 <= p.1 < |row| && row[p.1] == c
    ensures forall a, b :: 0 <= a < b < |RowCells(row, i, c)| ==> RowCells(row, i, c)[a].1 < RowCells(row, i, c)[b].1
    decreases |row|
  {
    if row != [] {
      var init := row[..|row| - 1];
      RowCellsSpec(init, i, c);
      forall p ensures p in RowCells(row, i, c) <==> p.0 == i && 0 <= p.1 < |row| && row[p.1] == c {
        if p.0 == i && 0 <= p.1 < |init| {
          assert row[p.1] == init[p.1];
        }
      }
    }
  }

  lemma {:induction false} CellsSpec(rows: seq<string>, c: char)
    ensures forall p :: p in Cells(rows, c) <==> OnBoard(rows, p) && rows[p.0][p.1] == c
    ensures RowMajor(Cells(rows, c))
    decreases |rows|
  {
    if rows != [] {
      var n := |rows| - 1;
      var init := rows[..n];
      CellsSpec(init, c);
      RowCellsSpec(rows[n], n, c);
      var front, back := Cells(init, c), RowCells(rows[n], n, c);
      assert Cells(rows, c) == front + back;
      forall p ensures p in Cells(rows, c) <==> OnBoard(rows, p) && rows[p.0][p.1] == c {
        if 0 <= p.0 < n {
          assert rows[p.0] == init[p.0];
        }
      }
      forall a, b | 0 <= a < b < |front + back| ensures Before((front + back)[a], (front + back)[b]) {
        if b < |front| {
          assert (front + back)[a] == front[a] && (front + back)[b] == front[b];
        } else if a < |front| {
          assert front[a] in front && back[b - |front|] in back;
        } else {
          assert (front + back)[a] == back[a - |front|] && (front + back)[b] == back[b - |front|];
        }
      }
    }
  }

  /** A row-major scan lists no position twice. */
  lemma CellsDistinct(rows: seq<string>, c: char)
    ensures forall a, b :: 0 <= a < b < |Cells(rows, c)| ==> Cells(rows, c)[a] != Cells(rows, c)[b]
  {
    CellsSpec(rows, c);
  }

  /** The cell kept by an overwrite-on-hit scan holds `c`, and no later cell does. */
  lemma LastOfCells(rows: seq<string>, c: char)
    ensures LastOf(Cells(rows, c)).Some? <==> exists p :: OnBoard(rows, p) && rows[p.0][p.1] == c
    ensures LastOf(Cells(rows, c)).Some? ==>
      var p := LastOf(Cells(rows, c)).value;
      OnBoard(rows, p) && rows[p.0][p.1] == c &&
      forall q :: OnBoard(rows, q) && rows[q.0][q.1] == c ==> q == p || Before(q, p)
  {
    var cells := Cells(rows, c);
    CellsSpec(rows, c);
    if exists p :: OnBoard(rows, p) && rows[p.0][p.1] == c {
      var p :| OnBoard(rows, p) && rows[p.0][p.1] == c;
      assert p in cells;
    }
    if cells != [] {
      var p := cells[|cells| - 1];
      forall q | OnBoard(rows, q) && rows[q.0][q.1] == c ensures q == p || Before(q, p) {
        assert q in cells;
        var k :| 0 <= k < |cells| && cells[k] == q;
        if k < |cells| - 1 {
          assert Before(cells[k], cells[|cells| - 1]);
        }
      }
    }
  }
}
