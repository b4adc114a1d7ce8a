/** The text of a matrix (pb_type_matrix): fixed-width cells written in place into one buffer. */
module MatrixPrint {
  import opened MatrixViews
  import opened MatrixObjects
  import opened MatrixCells

  // ----- Rows of cells -----

  /** The cells of a matrix, each eight characters wide. */
  datatype Table = Table(cell: (nat, nat) -> string, m: nat, n: nat)

  ghost predicate IsTable(t: Table) {
    forall r, c :: |t.cell(r, c)| == CELL
  }

  /** A cell with what follows it. */
  ghost function Entry(t: Table, r: nat, c: nat): (s: string)
    requires IsTable(t) && c < t.n
    ensures |s| == 10
  {
    t.cell(r, c) + if c < t.n - 1 then ", " else "],"
  }

  /** The start of row r up to column c. */
  ghost function RowTo(t: Table, r: nat, c: nat): (s: string)
    requires IsTable(t) && c <= t.n
    ensures |s| == 10 * c + 5
  {
    if c == 0 then "    [" else RowTo(t, r, c - 1) + Entry(t, r, c - 1)
  }

  ghost function Row(t: Table, r: nat): (s: string)
    requires IsTable(t)
    ensures |s| == 10 * t.n + 6
  {
    RowTo(t, r, t.n) + "\n"
  }

  /** The first r rows. */
  ghost function TextTo(t: Table, r: nat): (s: string)
    requires IsTable(t)
    ensures |s| == r * (10 * t.n + 6)
  {
    if r == 0 then "" else TextTo(t, r - 1) + Row(t, r - 1)
  }

  lemma {:induction false} RowToIsPrefix(t: Table, r: nat, c: nat, n: nat)
    requires IsTable(t) && c <= n <= t.n
    ensures RowTo(t, r, c) <= RowTo(t, r, n)
  {
    if c < n {
      RowToIsPrefix(t, r, c, n - 1);
    }
  }

  lemma {:induction false} TextToIsPrefix(t: Table, r: nat, n: nat)
    requires IsTable(t) && r <= n
    ensures TextTo(t, r) <= TextTo(t, n)
  {
    if r < n {
      TextToIsPrefix(t, r, n - 1);
    }
  }

  /** Where the cell in row r and column c starts. */
  function Offset(n: nat, r: nat, c: nat): nat {
    r * (10 * n + 6) + (10 * c + 5)
  }

  predicate Holds(text: string, at: nat, part: string) {
    at + |part| <= |text| && text[at..at + |part|] == part
  }

  lemma {:induction false} CellAtOffset(t: Table, r: nat, c: nat)
    requires IsTable(t) && r < t.m && c < t.n
    ensures Holds(TextTo(t, t.m), Offset(t.n, r, c), t.cell(r, c))
  {
    TextToIsPrefix(t, r + 1, t.m);
    RowToIsPrefix(t, r, c + 1, t.n);
    SliceBehind(TextTo(t, r), RowTo(t, r, c), t.cell(r, c), Row(t, r), TextTo(t, t.m));
  }

  lemma SliceBehind(rows: string, start: string, cell: string, row: string, text: string)
    requires rows + row <= text && start + cell <= row
    ensures Holds(text, |rows| + |start|, cell)
  {
    assert row[|start|..|start| + |cell|] == cell;
    assert text[|rows|..|rows| + |row|] == row;
    var at := |rows| + |start|;
    assert forall k :: 0 <= k < |cell| ==> text[at + k] == row[|start| + k] == cell[k];
  }

  lemma {:induction false} RowHasNoTerminator(t: Table, r: nat, c: nat)
    requires IsTable(t) && c <= t.n && forall k :: NoTerminator(t.cell(r, k))
    ensures NoTerminator(RowTo(t, r, c))
  {
    if c > 0 {
      RowHasNoTerminator(t, r, c - 1);
      assert NoTerminator(t.cell(r, c - 1));
    }
  }

  /** No string terminator inside the text. */
  lemma {:induction false} TextHasNoTerminator(t: Table, r: nat)
    requires IsTable(t) && forall i, k :: NoTerminator(t.cell(i, k))
    ensures NoTerminator(TextTo(t, r))
  {
    if r > 0 {
      TextHasNoTerminator(t, r - 1);
      RowHasNoTerminator(t, r - 1, t.n);
    }
  }

  // ----- The text of a matrix -----

  /** The conversion of every entry to a 32-bit integer is defined. */
  ghost predicate Printable(v: View) {
    IsMatrix(v) && forall r: nat, c: nat :: r < v.m && c < v.n ==> Convertible(At(v, r, c))
  }

  /** Every entry as its cell. */
  ghost predicate Depicts(t: Table, v: View) {
    && IsTable(t) && IsMatrix(v) && t.m == v.m && t.n == v.n
    && forall r: nat, c: nat {:trigger At(v, r, c)} :: t.cell(r, c) == Cell(Thousandths(At(v, r, c)))
  }

  lemma TableOf(v: View) returns (t: Table)
    requires IsMatrix(v)
    ensures Depicts(t, v)
  {
    t := Table((r: nat, c: nat) => Cell(Thousandths(At(v, r, c))), v.m, v.n);
  }

  /** What the buffer should hold before its terminator. */
  ghost predicate IsTextOf(text: string, v: View) {
    IsMatrix(v) && exists t :: Depicts(t, v) && text == TextTo(t, v.m)
  }

  predicate Reads(text: string, at: nat, value: int) {
    at + CELL <= |text| && ReadCell(text[at..at + CELL]) == value
  }

  /** Reading the text at the computed offset recovers the entry, cut to thousandths. */
  lemma PrintedEntryReadsBack(text: string, v: View, r: nat, c: nat)
    requires IsTextOf(text, v) && r < v.m && c < v.n
    ensures Reads(text, Offset(v.n, r, c), Thousandths(At(v, r, c)))
    ensures IsThousandthsOf(Thousandths(At(v, r, c)), At(v, r, c))
  {
    var t :| Depicts(t, v) && text == TextTo(t, v.m);
    CellAtOffset(t, r, c);
    CellReadsBack(Thousandths(At(v, r, c)));
    ThousandthsMeans(At(v, r, c));
  }

  lemma RowToNext(t: Table, r: nat, c: nat)
    requires IsTable(t) && c < t.n
    ensures RowTo(t, r, c + 1) == RowTo(t, r, c) + Entry(t, r, c)
  {
  }

  lemma Joined(a: string, b: string, c: string)
    ensures (a + b) + c == a + (b + c)
  {
  }

  lemma TextToNext(t: Table, r: nat)
    requires IsTable(t)
    ensures TextTo(t, r + 1) == TextTo(t, r) + Row(t, r)
  {
  }

  lemma RowIsInText(t: Table, r: nat)
    requires IsTable(t) && r < t.m
    ensures TextTo(t, r) + Row(t, r) <= TextTo(t, t.m)
  {
    TextToIsPrefix(t, r + 1, t.m);
    TextToNext(t, r);
    hide TextTo, Row;
  }

  lemma SeparatorInRow(t: Table, r: nat, c: nat)
    requires IsTable(t) && c < t.n
    ensures (RowTo(t, r, c) + t.cell(r, c)) + (if c < t.n - 1 then ", " else "],") <= Row(t, r)
  {
    RowToIsPrefix(t, r, c + 1, t.n);
    RowToNext(t, r, c);
    hide RowTo;
    Joined(RowTo(t, r, c), t.cell(r, c), if c < t.n - 1 then ", " else "],");
  }

  lemma OpeningInRow(t: Table, r: nat)
    requires IsTable(t)
    ensures "" + "    [" <= Row(t, r)
  {
    RowToIsPrefix(t, r, 0, t.n);
  }

  /** Between the cells: each row opens with a bracket, its cells are separated, and it ends with a newline. */
  lemma PrintedFrame(text: string, v: View, r: nat, c: nat)
    requires IsTextOf(text, v) && r < v.m && c < v.n
    ensures Holds(text, r * (10 * v.n + 6), "    [")
    ensures Holds(text, Offset(v.n, r, c) + 8, if c < v.n - 1 then ", " else "],")
    ensures Holds(text, r * (10 * v.n + 6) + (10 * v.n + 5), "\n")
  {
    hide RowTo, Entry, Holds, NoTerminator;
    var t :| Depicts(t, v) && text == TextTo(t, v.m);
    RowIsInText(t, r);
    OpeningInRow(t, r);
    SeparatorInRow(t, r, c);
    var rows, row := TextTo(t, r), Row(t, r);
    SliceBehind(rows, "", "    [", row, text);
    SliceBehind(rows, RowTo(t, r, c) + t.cell(r, c), if c < t.n - 1 then ", " else "],", row, text);
    SliceBehind(rows, RowTo(t, r, t.n), "\n", row, text);
    assert |t.cell(r, c)| == CELL == 8;
  }

  /** No terminator is inside the text. */
  lemma PrintedHasNoTerminator(text: string, v: View)
    requires IsTextOf(text, v)
    ensures NoTerminator(text)
  {
    var t :| Depicts(t, v) && text == TextTo(t, v.m);
    forall i: nat, k: nat ensures NoTerminator(t.cell(i, k)) {
      assert t.cell(i, k) == Cell(Thousandths(At(v, i, k)));
      CellHasNoTerminator(Thousandths(At(v, i, k)));
    }
    TextHasNoTerminator(t, v.m);
  }

  // ----- Printing -----

  /** The body of the column loop up to the separator. */
  method PrintNumber(mat: Matrix, buf: array<char>, base: nat, r: nat, c: nat)
    requires mat.Valid() && Printable(mat.Value()) && r < mat.m && c < mat.n && base + CELL <= buf.Length
    modifies buf
    ensures buf[base..base + CELL] == Cell(Thousandths(At(old(mat.Value()), r, c)))
    ensures buf[..base] == old(buf[..base])
  {
    IndexOk(mat.Value(), r, c);
    var idx := if mat.transposed then c * mat.m + r else r * mat.n + c;
    var x := mat.data[idx] * mat.scale;
    assert x == At(mat.Value(), r, c);
    PrintFloat(buf, base, x);
  }

  /** The matrix can be printed and these are its cells. */
  ghost predicate Ready(mat: Matrix, t: Table)
    reads mat, mat.data
  {
    mat.Valid() && Printable(mat.Value()) && Depicts(t, mat.Value())
  }

  /** One entry with its separator, behind what is already there: the body of the column loop. */
  method PrintEntry(mat: Matrix, buf: array<char>, base: nat, r: nat, c: nat, ghost t: Table, ghost before: string)
    requires Ready(mat, t)
    requires r < mat.m && c < mat.n && base + 10 <= buf.Length && buf[..base] == before
    modifies buf
    ensures buf[..base + 10] == before + Entry(t, r, c)
  {
    ghost var cell := t.cell(r, c);
    assert cell == Cell(Thousandths(At(mat.Value(), r, c)));
    PrintNumber(mat, buf, base, r, c);
    PrintSeparator(buf, base, c < mat.n - 1, cell, before);
  }

  method PrintSeparator(buf: array<char>, base: nat, more: bool, ghost cell: string, ghost before: string)
    requires base + 10 <= buf.Length && |cell| == CELL && buf[..base] == before && buf[base..base + CELL] == cell
    modifies buf
    ensures buf[..base + 10] == before + (cell + if more then ", " else "],")
  {
    if more {
      buf[base + 8], buf[base + 9] := ',', ' ';
    } else {
      buf[base + 8], buf[base + 9] := ']', ',';
    }
    assert buf[base..base + CELL] == cell;
    assert buf[..base + 10] == before + (cell + [buf[base + 8], buf[base + 9]]);
  }

  /** The fixed start of a row, copied with its terminator. */
  method PrintOpening(buf: array<char>, rowStart: nat)
    requires rowStart + 6 <= buf.Length
    modifies buf
    ensures buf[..rowStart + 5] == old(buf[..rowStart]) + "    ["
  {
    var opening := "    [\0";
    for i := 0 to 6
      invariant buf[..rowStart + i] == old(buf[..rowStart]) + opening[..i]
    {
      buf[rowStart + i] := opening[i];
    }
    assert buf[..rowStart + 5] == buf[..rowStart + 6][..rowStart + 5];
  }

  /** The body of the column loop, in terms of the row. */
  method PrintColumn(mat: Matrix, buf: array<char>, base: nat, r: nat, c: nat, ghost t: Table, ghost text: string)
    requires Ready(mat, t) && r < mat.m && c < mat.n
    requires base + 10 <= buf.Length && buf[..base] == text + RowTo(t, r, c)
    modifies buf
    ensures buf[..base + 10] == text + RowTo(t, r, c + 1)
  {
    ghost var row, entry := RowTo(t, r, c), Entry(t, r, c);
    PrintEntry(mat, buf, base, r, c, t, text + row);
    Joined(text, row, entry);
    assert RowTo(t, r, c + 1) == row + entry;
  }

  /** The column loop. */
  method PrintColumns(mat: Matrix, buf: array<char>, r: nat, start: nat, ghost t: Table, ghost text: string)
    requires Ready(mat, t) && r < mat.m && start + 10 * mat.n <= buf.Length && buf[..start] == text + RowTo(t, r, 0)
    modifies buf
    ensures buf[..start + 10 * mat.n] == text + RowTo(t, r, mat.n)
  {
    var n, colStart := mat.n, start;
    ghost var printed := text + RowTo(t, r, 0);
    for c := 0 to n
      invariant colStart == start + 10 * c
      invariant printed == text + RowTo(t, r, c) && buf[..colStart] == printed
    {
      PrintColumn(mat, buf, colStart, r, c, t, text);
      colStart := colStart + 10;
      printed := text + RowTo(t, r, c + 1);
    }
  }

  /** The body of the row loop: one row behind the text already printed. */
  method PrintRow(mat: Matrix, buf: array<char>, r: nat, rowStart: nat, ghost t: Table, ghost text: string)
    requires Ready(mat, t) && r < mat.m && rowStart + 10 * mat.n + 6 <= buf.Length && buf[..rowStart] == text
    modifies buf
    ensures buf[..rowStart + 10 * mat.n + 6] == text + Row(t, r)
  {
    PrintOpening(buf, rowStart);
    PrintColumns(mat, buf, r, rowStart + 5, t, text);
    var end := rowStart + 10 * mat.n + 5;
    buf[end] := '\n';
    assert buf[..end + 1] == buf[..end] + "\n";
    Joined(text, RowTo(t, r, mat.n), "\n");
  }

  /** The row loop. */
  method PrintRows(mat: Matrix, buf: array<char>, ghost t: Table)
    requires Ready(mat, t) && buf.Length == mat.m * (10 * mat.n + 6) + 1
    modifies buf
    ensures buf[..buf.Length - 1] == TextTo(t, mat.m)
  {
    var m, width := mat.m, mat.n * 10 + 6;
    ghost var text := "";
    for r := 0 to m
      invariant Ready(mat, t)
      invariant r * width < buf.Length && text == TextTo(t, r) && |text| == r * width && buf[..r * width] == text
    {
      NextRow(r, m, width);
      PrintRow(mat, buf, r, r * width, t, text);
      text := text + Row(t, r);
    }
  }

  /** pb_type_Matrix_print up to sending: the loops fill the buffer exactly and end it with the only terminator. */
  method Print(mat: Matrix) returns (buf: array<char>)
    requires mat.Valid() && Printable(mat.Value())
    ensures buf.Length == mat.m * (10 * mat.n + 6) + 1
    ensures IsTextOf(buf[..buf.Length - 1], mat.Value()) && buf[buf.Length - 1] == '\0'
  {
    ghost var t := TableOf(mat.Value());
    BufferLength(mat.m, mat.n);
    var len := mat.m * mat.n * 10 + mat.m * 6 + 1;
    buf := new char[len](_ => '?');
    PrintRows(mat, buf, t);
    ghost var text := buf[..len - 1];
    buf[len - 1] := '\0';
    assert buf[..len - 1] == text;
  }

  lemma BufferLength(m: nat, n: nat)
    ensures m * n * 10 + m * 6 == m * (10 * n + 6)
  {
  }
}
