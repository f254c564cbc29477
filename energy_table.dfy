/**
  The energy data table (components/tables/energy-data-table.tsx): which
  columns it shows, what a cell displays, and the "Showing start-end of total
  rows" label under the pager.
 */
module EnergyTable {
  import opened Clock
  import opened Text
  import opened EnergyRoute

  // ---------------------------------------------------------------------------
  // Columns and cells
  // ---------------------------------------------------------------------------

  /** A column definition: the row field it reads and its header text. */
  datatype Column = Column(accessorKey: string, header: string)

  const DateColumn: Column := Column("date", "Date")
  const SolarColumn: Column := Column("solar", "Solar Data (MW)")
  const WindColumn: Column := Column("wind", "Wind Data (MW)")

  /** `buildColumns`: the date column, then the solar and the wind column when shown. */
  method BuildColumns(showSolar: bool, showWind: bool) returns (columns: seq<Column>)
    ensures |columns| == 1 + (if showSolar then 1 else 0) + (if showWind then 1 else 0)
    ensures columns[0] == DateColumn
    ensures SolarColumn in columns <==> showSolar
    ensures WindColumn in columns <==> showWind
    ensures forall i, j :: 0 <= i < |columns| && 0 <= j < |columns| && columns[i] == SolarColumn && columns[j] == WindColumn ==> i < j
    ensures forall i, j :: 0 <= i < j < |columns| ==> columns[i] != columns[j]
  {
    columns := [DateColumn];
    if showSolar {
      columns := columns + [SolarColumn];
    }
    if showWind {
      columns := columns + [WindColumn];
    }
  }

  /** What a cell shows: the date, or a number of megawatts. */
  datatype Cell = DateCell(date: Timestamp) | Megawatts(mw: real)

  /** The cell of `row` under `column`; a missing value reads as 0 (`?? 0`). */
  function CellOf(column: Column, row: EnergyRow): Cell {
    if column.accessorKey == "solar" then Megawatts(row.solar.GetOr(0.0))
    else if column.accessorKey == "wind" then Megawatts(row.wind.GetOr(0.0))
    else DateCell(row.date)
  }

  /** A present value is shown as is and a missing one as 0, in both number columns. */
  lemma CellShowsValueOrZero(row: EnergyRow)
    ensures CellOf(SolarColumn, row) == Megawatts(if row.solar.Some? then row.solar.value else 0.0)
    ensures CellOf(WindColumn, row) == Megawatts(if row.wind.Some? then row.wind.value else 0.0)
    ensures CellOf(DateColumn, row) == DateCell(row.date)
  {
  }

  // ---------------------------------------------------------------------------
  // Pagination and the row-range label
  // ---------------------------------------------------------------------------

  const InitialPageIndex: nat := 0
  const InitialPageSize: nat := 25
  const PageSizeOptions: seq<nat> := [10, 20, 25, 50]

  /** The table opens on a page size the selector offers, and every offered size is positive. */
  lemma PageSizes()
    ensures InitialPageSize in PageSizeOptions
    ensures forall i :: 0 <= i < |PageSizeOptions| ==> PageSizeOptions[i] >= 1
  {
  }

  /** The 1-based numbers of the first and last row shown. */
  datatype RowRange = RowRange(start: nat, end: nat)

  function ShownRange(total: nat, pageIndex: nat, pageSize: nat): RowRange {
    var start := if total == 0 then 0 else pageIndex * pageSize + 1;
    var end := if total < (pageIndex + 1) * pageSize then total else (pageIndex + 1) * pageSize;
    RowRange(start, end)
  }

  /** The label text. */
  function RangeLabel(total: nat, pageIndex: nat, pageSize: nat): string {
    var r := ShownRange(total, pageIndex, pageSize);
    "Showing " + NatToString(r.start) + "-" + NatToString(r.end) + " of " + NatToString(total) + " rows"
  }

  /** The end never passes the total, and is the end of the page when the page is full. */
  lemma RangeEnd(total: nat, pageIndex: nat, pageSize: nat)
    ensures ShownRange(total, pageIndex, pageSize).end <= total
    ensures ShownRange(total, pageIndex, pageSize).end <= (pageIndex + 1) * pageSize
    ensures ShownRange(total, pageIndex, pageSize).end == total || ShownRange(total, pageIndex, pageSize).end == (pageIndex + 1) * pageSize
  {
  }

  /** An empty table reads "0-0"; otherwise the start is the 1-based number of the page's first row. */
  lemma RangeStart(total: nat, pageIndex: nat, pageSize: nat)
    ensures total == 0 ==> ShownRange(total, pageIndex, pageSize) == RowRange(0, 0)
    ensures total > 0 ==> ShownRange(total, pageIndex, pageSize).start == pageIndex * pageSize + 1
  {
  }

  lemma MulMono(a: nat, b: nat, c: nat)
    requires a <= b
    ensures a * c <= b * c
  {
  }

  /**
    When the page starts inside the table, the range is well ordered and
    covers at most one page; when it starts past the end (the page index is
    left behind after rows disappear) the start exceeds the end.
   */
  lemma RangeOnPage(total: nat, pageIndex: nat, pageSize: nat)
    requires pageSize >= 1 && total >= 1
    ensures var r := ShownRange(total, pageIndex, pageSize);
            (r.start <= r.end <==> pageIndex * pageSize < total)
            && (pageIndex * pageSize < total ==> r.end - r.start + 1 <= pageSize)
  {
    MulMono(pageIndex, pageIndex + 1, pageSize);
    assert (pageIndex + 1) * pageSize == pageIndex * pageSize + pageSize;
  }

  /** Every row, numbered from 1, is shown on exactly one page: page `(row - 1) / pageSize`. */
  lemma EachRowOnOnePage(total: nat, pageSize: nat, row: nat, pageIndex: nat)
    requires pageSize >= 1 && 1 <= row <= total
    ensures var r := ShownRange(total, pageIndex, pageSize);
            r.start <= row <= r.end <==> pageIndex == (row - 1) / pageSize
  {
    var q := (row - 1) / pageSize;
    assert q * pageSize <= row - 1 < (q + 1) * pageSize;
    assert (pageIndex + 1) * pageSize == pageIndex * pageSize + pageSize;
    if pageIndex > q {
      MulMono(q + 1, pageIndex, pageSize);
    } else if pageIndex < q {
      MulMono(pageIndex + 1, q, pageSize);
    }
  }

  /** Splitting at a non-digit separator after a run of digits is unambiguous. */
  lemma {:induction false} SplitAfterDigits(x: string, y: string, x2: string, y2: string, c: char)
    requires forall i :: 0 <= i < |x| ==> IsDigit(x[i])
    requires forall i :: 0 <= i < |x2| ==> IsDigit(x2[i])
    requires !IsDigit(c)
    requires x + ([c] + y) == x2 + ([c] + y2)
    ensures x == x2 && y == y2
  {
    var s, s2 := x + ([c] + y), x2 + ([c] + y2);
    if x == [] {
      assert s2[0] == s[0] == c;
      assert x2 == [];
      assert y == s[1..] == s2[1..] == y2;
    } else {
      assert s2[0] == s[0] == x[0];
      assert x2 != [];
      assert s[1..] == x[1..] + ([c] + y);
      assert s2[1..] == x2[1..] + ([c] + y2);
      SplitAfterDigits(x[1..], y, x2[1..], y2, c);
      assert x == [x[0]] + x[1..];
      assert x2 == [x2[0]] + x2[1..];
    }
  }

  /** The label text, grouped from the right: prefix, start, `-`, end, ` `, `of `, total, ` rows`. */
  lemma RangeLabelShape(total: nat, pageIndex: nat, pageSize: nat)
    ensures var r := ShownRange(total, pageIndex, pageSize);
            RangeLabel(total, pageIndex, pageSize)
            == "Showing " + (NatToString(r.start) + ("-" + (NatToString(r.end) + (" " + ("of " + (NatToString(total) + " rows"))))))
  {
  }

  /** The label determines the three numbers it shows. */
  lemma RangeLabelInjective(total: nat, pageIndex: nat, pageSize: nat, total2: nat, pageIndex2: nat, pageSize2: nat)
    requires RangeLabel(total, pageIndex, pageSize) == RangeLabel(total2, pageIndex2, pageSize2)
    ensures ShownRange(total, pageIndex, pageSize) == ShownRange(total2, pageIndex2, pageSize2)
    ensures total == total2
  {
    var r, r2 := ShownRange(total, pageIndex, pageSize), ShownRange(total2, pageIndex2, pageSize2);
    var a, b, t := NatToString(r.start), NatToString(r.end), NatToString(total);
    var a2, b2, t2 := NatToString(r2.start), NatToString(r2.end), NatToString(total2);
    var m, m2 := "of " + (t + " rows"), "of " + (t2 + " rows");
    var x, x2 := a + ("-" + (b + (" " + m))), a2 + ("-" + (b2 + (" " + m2)));
    RangeLabelShape(total, pageIndex, pageSize);
    RangeLabelShape(total2, pageIndex2, pageSize2);
    assert x == ("Showing " + x)[8..] == ("Showing " + x2)[8..] == x2;
    SplitAfterDigits(a, b + (" " + m), a2, b2 + (" " + m2), '-');
    SplitAfterDigits(b, m, b2, m2, ' ');
    assert m[3..] == t + " rows" && m2[3..] == t2 + " rows";
    assert " rows" == [' '] + "rows";
    SplitAfterDigits(t, "rows", t2, "rows", ' ');
    NatToStringInjective(r.start, r2.start);
    NatToStringInjective(r.end, r2.end);
    NatToStringInjective(total, total2);
  }
}
