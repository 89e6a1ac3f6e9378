/** The face slicer: cutting a rectangular window out of the lines of a
    net and listing the symbols placed in it. */
module Grid {
  import opened Wrappers

  /** A symbol found at local column `col` and row `row` of a window. */
  datatype Cell = Cell(col: nat, row: nat, ch: char)

  /** Border and filler characters are never symbols. */
  predicate Ignored(c: char) {
    c == '+' || c == '-' || c == ' ' || c == '|'
  }

  /** Row-major order: by row, then by column. */
  predicate Before(a: Cell, b: Cell) {
    a.row < b.row || (a.row == b.row && a.col < b.col)
  }

  predicate StrictlyRowMajor(cells: seq<Cell>) {
    forall i, j :: 0 <= i < j < |cells| ==> Before(cells[i], cells[j])
  }

  /** Every line the window touches reaches its right edge. */
  predicate Fits(image: seq<string>, x: nat, y: nat, wdt: nat, hgt: nat) {
    && y + hgt <= |image|
    && forall r :: y <= r < y + hgt ==> x + wdt <= |image[r]|
  }

  /** The character under local cell (col, row) of the window at (x, y). */
  function At(image: seq<string>, x: nat, y: nat, col: nat, row: nat): char
    requires y + row < |image| && x + col < |image[y + row]|
  {
    image[y + row][x + col]
  }

  /** The first `k` columns of row `row` of the window, symbols only. */
  function ScanRow(image: seq<string>, x: nat, y: nat, row: nat, k: nat): (cells: seq<Cell>)
    requires y + row < |image| && x + k <= |image[y + row]|
    ensures forall i :: 0 <= i < |cells| ==>
      && cells[i].row == row && cells[i].col < k
      && !Ignored(cells[i].ch) && cells[i].ch == At(image, x, y, cells[i].col, row)
    ensures forall col :: 0 <= col < k && !Ignored(At(image, x, y, col, row)) ==>
      Cell(col, row, At(image, x, y, col, row)) in cells
    ensures StrictlyRowMajor(cells)
  {
    if k == 0 then []
    else
      var ch := At(image, x, y, k - 1, row);
      var prev := ScanRow(image, x, y, row, k - 1);
      var next := if Ignored(ch) then [] else [Cell(k - 1, row, ch)];
      var cells := prev + next;
      assert forall i :: 0 <= i < |prev| ==> cells[i] == prev[i];
      assert next != [] ==> cells[|prev|] == next[0] && |cells| == |prev| + 1;
      assert forall i :: 0 <= i < |prev| ==> prev[i].col < k - 1;
      cells
  }

  /** The first `k` rows of the `wdt`-wide window, symbols only. */
  function ScanRows(image: seq<string>, x: nat, y: nat, wdt: nat, k: nat): (cells: seq<Cell>)
    requires Fits(image, x, y, wdt, k)
    ensures forall i :: 0 <= i < |cells| ==>
      && cells[i].row < k && cells[i].col < wdt
      && !Ignored(cells[i].ch) && cells[i].ch == At(image, x, y, cells[i].col, cells[i].row)
    ensures forall row, col :: 0 <= row < k && 0 <= col < wdt && !Ignored(At(image, x, y, col, row)) ==>
      Cell(col, row, At(image, x, y, col, row)) in cells
    ensures StrictlyRowMajor(cells)
  {
    if k == 0 then []
    else
      var upper := ScanRows(image, x, y, wdt, k - 1);
      var last := ScanRow(image, x, y, k - 1, wdt);
      AppendRow(upper, last, k - 1);
      assert forall row, col :: 0 <= row < k - 1 && 0 <= col < wdt && !Ignored(At(image, x, y, col, row)) ==>
        Cell(col, row, At(image, x, y, col, row)) in upper + last;
      upper + last
  }

  /** Appending a later row keeps the cells in row-major order. */
  lemma AppendRow(upper: seq<Cell>, last: seq<Cell>, row: nat)
    requires StrictlyRowMajor(upper) && StrictlyRowMajor(last)
    requires forall i :: 0 <= i < |upper| ==> upper[i].row < row
    requires forall i :: 0 <= i < |last| ==> last[i].row == row
    ensures StrictlyRowMajor(upper + last)
  {
    var all := upper + last;
    forall i, j | 0 <= i < j < |all| ensures Before(all[i], all[j]) {
      if j < |upper| {
        assert all[i] == upper[i] && all[j] == upper[j];
      } else if i >= |upper| {
        assert all[i] == last[i - |upper|] && all[j] == last[j - |upper|];
      } else {
        assert all[i] == upper[i] && all[j] == last[j - |upper|];
      }
    }
  }

  /** `get_letters_in_ascii_grid`: the symbols of the `wdt`×`hgt` window at
      (x, y), in row-major order, each with its window-local position.
      `None` stands for the slice panic on a window that leaves the lines. */
  function Window(image: seq<string>, x: nat, y: nat, wdt: nat, hgt: nat): (r: Option<seq<Cell>>)
    ensures r.Some? <==> Fits(image, x, y, wdt, hgt)
    ensures r.Some? ==> forall i :: 0 <= i < |r.value| ==>
      && r.value[i].col < wdt && r.value[i].row < hgt
      && !Ignored(r.value[i].ch)
      && r.value[i].ch == At(image, x, y, r.value[i].col, r.value[i].row)
    ensures r.Some? ==> forall row, col :: 0 <= row < hgt && 0 <= col < wdt && !Ignored(At(image, x, y, col, row)) ==>
      Cell(col, row, At(image, x, y, col, row)) in r.value
    ensures r.Some? ==> StrictlyRowMajor(r.value)
    ensures r.Some? && (wdt == 0 || hgt == 0) ==> r.value == []
  {
    if Fits(image, x, y, wdt, hgt) then
      var cells := ScanRows(image, x, y, wdt, hgt);
      assert |cells| > 0 ==> cells[0].col < wdt && cells[0].row < hgt;
      Some(cells)
    else None
  }

  /** Each symbol of the window is listed exactly once. */
  lemma WindowListsEachCellOnce(image: seq<string>, x: nat, y: nat, wdt: nat, hgt: nat, i: nat, j: nat)
    requires Window(image, x, y, wdt, hgt).Some?
    requires i < j < |Window(image, x, y, wdt, hgt).value|
    ensures Window(image, x, y, wdt, hgt).value[i] != Window(image, x, y, wdt, hgt).value[j]
  {
  }
}
