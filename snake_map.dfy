/**
 * The snake arena's map text: a rectangle of `x` walls around a floor of
 * `.` cells, rows joined with newlines.
 */
module SnakeMap {
  import opened Grid
  import opened Text
  import opened Board

  const Wall: char := 'x'
  const Floor: char := '.'

  /** `c * n` in Python: `n` copies of `c`, and the empty string for `n <= 0`. */
  function Repeat(c: char, n: int): (s: string)
    ensures |s| == if n < 0 then 0 else n
    ensures forall k :: 0 <= k < |s| ==> s[k] == c
    decreases n
  {
    if n <= 0 then "" else [c] + Repeat(c, n - 1)
  }

  function BorderRow(width: int): string {
    Repeat(Wall, width)
  }

  function InnerRow(width: int): string {
    [Wall] + Repeat(Floor, width - 2) + [Wall]
  }

  /** The rows `generate_map` joins: a border row, `height - 2` inner rows (none when negative), a border row. */
  function MapRows(width: int, height: int): seq<string> {
    [BorderRow(width)] + seq(if height < 2 then 0 else height - 2, _ => InnerRow(width)) + [BorderRow(width)]
  }

  /** `generate_map(width, height)`. */
  method GenerateMap(width: int, height: int) returns (text: string)
    ensures text == Join(MapRows(width, height), '\n')
  {
    var mapData := [BorderRow(width)];
    var k := 0;
    while k < height - 2
      invariant 0 <= k <= if height < 2 then 0 else height - 2
      invariant mapData == [BorderRow(width)] + seq(k, _ => InnerRow(width))
    {
      mapData := mapData + [InnerRow(width)];
      k := k + 1;
    }
    assert k == if height < 2 then 0 else height - 2;
    mapData := mapData + [BorderRow(width)];
    text := Join(mapData, '\n');
  }

  /**
   * Shape of the generated rows: `max(2, height)` rows; border rows hold
   * `width` walls, inner rows a wall, `width - 2` floor cells and a wall, so
   * all rows have length `width` once `width >= 2`.
   */
  lemma MapRowsShape(width: int, height: int)
    ensures |MapRows(width, height)| == if height < 2 then 2 else height
    ensures forall i :: 0 <= i < |MapRows(width, height)| ==> '\n' !in MapRows(width, height)[i]
    ensures width >= 2 ==> forall i :: 0 <= i < |MapRows(width, height)| ==> |MapRows(width, height)[i]| == width
  {
  }

  /**
   * For a map at least 2 by 2, a cell holds a wall exactly on the outer
   * ring and floor everywhere inside it.
   */
  lemma MapTiles(width: int, height: int, p: Pos)
    requires width >= 2 && height >= 2
    ensures OnBoard(MapRows(width, height), p) <==> 0 <= p.0 < height && 0 <= p.1 < width
    ensures OnBoard(MapRows(width, height), p) ==>
      MapRows(width, height)[p.0][p.1] ==
        if p.0 == 0 || p.0 == height - 1 || p.1 == 0 || p.1 == width - 1 then Wall else Floor
  {
    MapRowsShape(width, height);
    var rows := MapRows(width, height);
    if OnBoard(rows, p) && 0 < p.0 < height - 1 {
      assert rows[p.0] == InnerRow(width);
      if 0 < p.1 < width - 1 {
        assert rows[p.0][p.1] == Repeat(Floor, width - 2)[p.1 - 1];
      }
    }
  }

  /** The first character of a join is the first character of its first row. */
  lemma {:induction false} JoinFirst(rows: seq<string>, sep: char)
    requires |rows| >= 1 && rows[0] != []
    ensures Join(rows, sep) != [] && Join(rows, sep)[0] == rows[0][0]
  {
  }

  /** The last character of a join is the last character of its last row. */
  lemma {:induction false} JoinLast(rows: seq<string>, sep: char)
    requires |rows| >= 1 && rows[|rows| - 1] != []
    ensures Join(rows, sep) != []
    ensures Join(rows, sep)[|Join(rows, sep)| - 1] == rows[|rows| - 1][|rows[|rows| - 1]| - 1]
    decreases |rows|
  {
    if |rows| > 1 {
      JoinLast(rows[1..], sep);
      assert rows[1..][|rows[1..]| - 1] == rows[|rows| - 1];
    }
  }

  /**
   * Reading a generated map back gives its rows: the text starts and ends
   * with a wall, so stripping keeps it whole, and no row holds a newline,
   * so splitting undoes the join. This needs `width >= 1`; with width 0
   * the text is blank and reads back as one empty row.
   */
  lemma ParseGeneratedMap(width: int, height: int)
    requires width >= 1
    ensures ParseRows(Join(MapRows(width, height), '\n')) == MapRows(width, height)
  {
    var rows := MapRows(width, height);
    var text := Join(rows, '\n');
    MapRowsShape(width, height);
    assert rows[0] == BorderRow(width) && rows[|rows| - 1] == BorderRow(width);
    JoinFirst(rows, '\n');
    JoinLast(rows, '\n');
    StripKeeps(text);
    forall row <- rows ensures '\n' !in row {
      var i :| 0 <= i < |rows| && rows[i] == row;
    }
    SplitJoin(rows, '\n');
  }
}
