/** The table the serializers fill: a list of rows, each an array of cells,
    that only ever grows at the end. */
module Tables {

  /** Every row has exactly `width` cells: the "square and non-sparse" shape
      the formatter relies on. */
  predicate Rectangular(rows: seq<seq<string>>, width: nat)
  {
    forall i :: 0 <= i < |rows| ==> |rows[i]| == width
  }

  lemma RectangularCons(row: seq<string>, rows: seq<seq<string>>, width: nat)
    requires |row| == width && Rectangular(rows, width)
    ensures Rectangular([row] + rows, width)
  {
  }

  class Table {
    var rows: seq<seq<string>>

    /** `new Table()`: no rows yet. */
    constructor ()
      ensures rows == []
    {
      rows := [];
    }

    /** `new Table(headers)`: the header row and nothing else. */
    constructor WithHeaders(headers: seq<string>)
      ensures rows == [headers]
    {
      rows := [headers];
    }

    /** `add(row)`: one more row at the end; earlier rows stay as they were. */
    method Add(row: seq<string>)
      modifies this
      ensures rows == old(rows) + [row]
    {
      rows := rows + [row];
    }

    /** `addAll(more)`: the rows of `more`, in order, at the end. */
    method AddAll(more: seq<seq<string>>)
      modifies this
      ensures rows == old(rows) + more
    {
      rows := rows + more;
    }

    /** `width()`: the number of cells in the first row, which is the number
        of cells in every row of a rectangular table. */
    function Width(): (w: nat)
      reads this
      requires |rows| >= 1
      ensures Rectangular(rows, |rows[0]|) ==> forall i :: 0 <= i < |rows| ==> |rows[i]| == w
      ensures forall v: nat :: Rectangular(rows, v) ==> v == w
    {
      |rows[0]|
    }

    /** `addTo(a, b)`: appends the rows `b` had to `a` and returns `a`; `b`
        is left alone unless it is `a` itself, which then holds its rows
        twice. */
    static method AddTo(a: Table, b: Table) returns (r: Table)
      modifies a
      ensures r == a
      ensures a.rows == old(a.rows) + old(b.rows)
      ensures a != b ==> b.rows == old(b.rows)
    {
      a.AddAll(b.rows);
      r := a;
    }
  }
}
