/** One printed entry (print_float in pb_type_matrix): a number as eight characters, edited in place. */
module MatrixCells {
  const CELL := 8
  const LIMIT := 999_999

  // ----- Numbers -----

  /** Conversion of a real number to an integer, dropping the fraction. */
  function Truncate(x: real): int {
    if x >= 0.0 then x.Floor else -(-x).Floor
  }

  /** The number of thousandths printed: truncated and limited to 999.999 in magnitude. */
  function Thousandths(x: real): (t: int)
    ensures -LIMIT <= t <= LIMIT
  {
    var val := Truncate(x * 1000.0);
    if val > LIMIT then LIMIT else if val < -LIMIT then -LIMIT else val
  }

  /** Truncation drops the fraction and keeps the sign. */
  lemma TruncateMeans(x: real)
    ensures x >= 0.0 ==> 0 <= Truncate(x) && Truncate(x) as real <= x < Truncate(x) as real + 1.0
    ensures Truncate(-x) == -Truncate(x)
  {
  }

  /**
    What is shown of a number, in thousandths: below 1000 in magnitude less than one too near to zero and never of
    the other sign; from 1000 on the limit of the same sign.
   */
  predicate IsThousandthsOf(t: int, x: real) {
    if x >= 1000.0 then t == 999_999
    else if x <= -1000.0 then t == -999_999
    else if x >= 0.0 then 0 <= t && t as real <= 1000.0 * x < t as real + 1.0
    else t <= 0 && t as real - 1.0 < 1000.0 * x <= t as real
  }

  lemma ThousandthsMeans(x: real)
    ensures IsThousandthsOf(Thousandths(x), x)
  {
    var y := x * 1000.0;
    assert y == 1000.0 * x;
    TruncateMeans(y);
    TruncateMeans(-y);
  }

  /** The conversion to a 32-bit integer and its negation are defined. */
  predicate Convertible(x: real) {
    -0x8000_0000 < Truncate(x * 1000.0) < 0x8000_0000
  }

  function DigitChar(d: nat): (c: char)
    requires d < 10
    ensures c != ' ' && c != '-' && c != '.' && c != '\0'
  {
    '0' + d as char
  }

  lemma DigitsAreDecimal(d: nat)
    requires d < 10
    ensures DigitChar(d) == "0123456789"[d] && DigitValue("0123456789"[d]) == d
  {
  }

  function DigitValue(c: char): int {
    c as int - '0' as int
  }

  // ----- Cells as they should be -----

  /** A number below 1000 without leading zeros. */
  function Whole(n: nat): (s: string)
    requires n < 1000
    ensures 1 <= |s| <= 3
  {
    if n < 10 then [DigitChar(n)]
    else if n < 100 then [DigitChar(n / 10), DigitChar(n % 10)]
    else [DigitChar(n / 100), DigitChar(n / 10 % 10), DigitChar(n % 10)]
  }

  function Fraction(n: nat): (s: string)
    requires n < 1000
    ensures |s| == 3
  {
    [DigitChar(n / 100), DigitChar(n / 10 % 10), DigitChar(n % 10)]
  }

  function Spaces(n: nat): (s: string)
    ensures |s| == n && forall i :: 0 <= i < n ==> s[i] == ' '
  {
    seq(n, _ => ' ')
  }

  /** Sign and digits of a cell, without the padding. */
  function CellText(t: int): (s: string)
    requires -LIMIT <= t <= LIMIT
    ensures 5 <= |s| <= CELL && s[|s| - 4] == '.' && s[0] != ' ' && (s[0] == '-' <==> t < 0)
  {
    var magnitude := if t < 0 then -t else t;
    var body := Whole(magnitude / 1000) + "." + Fraction(magnitude % 1000);
    if t < 0 then "-" + body else body
  }

  /** Sign, whole part and three decimals, right-aligned in eight characters. */
  function Cell(t: int): (s: string)
    requires -LIMIT <= t <= LIMIT
    ensures |s| == CELL
  {
    Spaces(CELL - |CellText(t)|) + CellText(t)
  }

  // ----- Reading a cell -----

  function Digits(s: string): int {
    if s == "" then 0 else 10 * Digits(s[..|s| - 1]) + DigitValue(s[|s| - 1])
  }

  function SkipSpaces(s: string): string {
    if s != "" && s[0] == ' ' then SkipSpaces(s[1..]) else s
  }

  function Unsigned(s: string): int {
    if |s| < 4 then 0 else 1000 * Digits(s[..|s| - 4]) + Digits(s[|s| - 3..])
  }

  /** Signed fixed point with three decimals: the number of thousandths. */
  function ReadCell(s: string): int {
    var text := SkipSpaces(s);
    if text != "" && text[0] == '-' then -Unsigned(text[1..]) else Unsigned(text)
  }

  lemma {:induction false} SkipsSpaces(n: nat, text: string)
    requires text != "" && text[0] != ' '
    ensures SkipSpaces(Spaces(n) + text) == text
  {
    var s := Spaces(n) + text;
    if n == 0 {
      assert s == text;
    } else {
      assert s[1..] == Spaces(n - 1) + text;
      SkipsSpaces(n - 1, text);
    }
  }

  lemma DigitsAppend(s: string, d: nat)
    requires d < 10
    ensures Digits(s + [DigitChar(d)]) == 10 * Digits(s) + d
  {
    assert (s + [DigitChar(d)])[..|s|] == s;
  }

  lemma DigitsOfFraction(n: nat)
    requires n < 1000
    ensures Digits(Fraction(n)) == n
  {
    var a, b, c := n / 100, n / 10 % 10, n % 10;
    DigitsAppend("", a);
    DigitsAppend([DigitChar(a)], b);
    DigitsAppend([DigitChar(a), DigitChar(b)], c);
    assert "" + [DigitChar(a)] == [DigitChar(a)];
    assert [DigitChar(a)] + [DigitChar(b)] == [DigitChar(a), DigitChar(b)];
    assert [DigitChar(a), DigitChar(b)] + [DigitChar(c)] == Fraction(n);
  }

  lemma DigitsOfOne(d: nat)
    requires d < 10
    ensures Digits([DigitChar(d)]) == d
  {
    DigitsAppend("", d);
    assert "" + [DigitChar(d)] == [DigitChar(d)];
  }

  lemma DigitsOfWhole(n: nat)
    requires n < 1000
    ensures Digits(Whole(n)) == n
  {
    if n < 10 {
      DigitsOfOne(n);
    } else if n < 100 {
      DigitsOfOne(n / 10);
      DigitsAppend([DigitChar(n / 10)], n % 10);
      hide Digits;
      assert [DigitChar(n / 10)] + [DigitChar(n % 10)] == Whole(n);
    } else {
      DigitsOfFraction(n);
    }
  }

  lemma UnsignedReadsBack(w: nat, f: nat)
    requires w < 1000 && f < 1000
    ensures Unsigned(Whole(w) + "." + Fraction(f)) == 1000 * w + f
  {
    var s := Whole(w) + "." + Fraction(f);
    assert s[..|s| - 4] == Whole(w) && s[|s| - 3..] == Fraction(f);
    DigitsOfWhole(w);
    DigitsOfFraction(f);
  }

  /** A cell reads back as the number it was made from. */
  lemma CellReadsBack(t: int)
    requires -LIMIT <= t <= LIMIT
    ensures ReadCell(Cell(t)) == t
  {
    var magnitude := if t < 0 then -t else t;
    SkipsSpaces(CELL - |CellText(t)|, CellText(t));
    UnsignedReadsBack(magnitude / 1000, magnitude % 1000);
    if t < 0 {
      assert CellText(t)[1..] == Whole(magnitude / 1000) + "." + Fraction(magnitude % 1000);
    }
  }

  /** For instance. */
  lemma CellExamples()
    ensures Cell(1500) == "   1.500" && Cell(-7) == "  -0.007"
  {
    DigitExamples();
    assert Whole(1) == "1" && Fraction(500) == "500" && Spaces(3) == "   ";
    assert CellText(1500) == "1.500";
    assert Whole(0) == "0" && Fraction(7) == "007" && Spaces(2) == "  ";
    assert CellText(-7) == "-0.007";
  }

  lemma DigitExamples()
    ensures DigitChar(0) == '0' && DigitChar(1) == '1' && DigitChar(5) == '5' && DigitChar(7) == '7'
  {
  }

  predicate NoTerminator(s: string) {
    forall i :: 0 <= i < |s| ==> s[i] != '\0'
  }

  lemma CellHasNoTerminator(t: int)
    requires -LIMIT <= t <= LIMIT
    ensures NoTerminator(Cell(t))
  {
    assert NoTerminator(CellText(t));
  }

  // ----- Writing in place -----

  function Pow10(n: nat): (p: nat)
    ensures p > 0
  {
    if n == 0 then 1 else 10 * Pow10(n - 1)
  }

  /** The character of "%7d" with the given number of characters to its right, for a number of at most six digits. */
  function PaddedChar(val: nat, right: nat): char {
    if right == 0 || val >= Pow10(right) then DigitChar(val / Pow10(right) % 10) else ' '
  }

  /** How many characters "%d" prints. */
  function PrintedLength(val: nat): (n: nat)
    requires val <= LIMIT
    ensures 1 <= n <= 6
  {
    if val < 10 then 1 else if val < 100 then 2 else if val < 1000 then 3
    else if val < 10_000 then 4 else if val < 100_000 then 5 else 6
  }

  /** "%7d". */
  function Padded(val: nat): (s: string)
    ensures |s| == 7
  {
    seq(7, i requires 0 <= i < 7 => PaddedChar(val, 6 - i))
  }

  lemma PowersOfTen()
    ensures Pow10(1) == 10 && Pow10(2) == 100 && Pow10(3) == 1000
    ensures Pow10(4) == 10_000 && Pow10(5) == 100_000 && Pow10(6) == 1_000_000
  {
    assert Pow10(3) == 1000;
    assert Pow10(5) == 100_000;
  }

  function ZeroIfBlank(c: char): char {
    if c == ' ' then '0' else c
  }

  /** The edits of print_float on the seven padded characters: sign, zeros, decimal point. */
  function Edited(padded: string, negative: bool, c: nat): (s: string)
    requires |padded| == 7 && 1 <= c <= 6
    ensures |s| == CELL
  {
    var p := if negative then padded[(if 6 - c <= 2 then 6 - c else 2) := '-'] else padded;
    [p[0], p[1], p[2], ZeroIfBlank(p[3]), '.', ZeroIfBlank(p[4]), ZeroIfBlank(p[5]), ZeroIfBlank(p[6])]
  }

  /** The six digits of a number, blanks for leading zeros. */
  lemma PaddedDigits(val: nat)
    requires val <= LIMIT
    ensures var p := Padded(val);
            && p[0] == ' ' && p[6] == DigitChar(val % 10)
            && p[5] == (if val >= 10 then DigitChar(val / 10 % 10) else ' ')
            && p[4] == (if val >= 100 then DigitChar(val / 100 % 10) else ' ')
            && p[3] == (if val >= 1000 then DigitChar(val / 1000 % 10) else ' ')
            && p[2] == (if val >= 10_000 then DigitChar(val / 10_000 % 10) else ' ')
            && p[1] == (if val >= 100_000 then DigitChar(val / 100_000 % 10) else ' ')
  {
    PowersOfTen();
    assert Pow10(0) == 1;
  }

  /** Dividing by a, then by b, is dividing by their product. */
  lemma DivideTwice(val: nat, q: nat, f: nat, b: nat)
    requires val == 1000 * q + f && f < 1000 && 0 < b <= 100
    ensures b == 10 ==> q / 10 == val / 10_000
    ensures b == 100 ==> q / 100 == val / 100_000
  {
  }

  lemma LastDigit(k: nat, c: nat)
    requires c < 10
    ensures (10 * k + c) / 10 == k && (10 * k + c) % 10 == c
  {
  }

  /** Peeling off three digits. */
  lemma ThreeDigits(q: nat, a: nat, b: nat, c: nat)
    requires a < 10 && b < 10 && c < 10
    ensures var val := 1000 * q + 100 * a + 10 * b + c; val % 10 == c && val / 10 % 10 == b && val / 100 % 10 == a
  {
    var val := 1000 * q + 100 * a + 10 * b + c;
    LastDigit(100 * q + 10 * a + b, c);
    LastDigit(10 * q + a, b);
    LastDigit(q, a);
    assert val / 100 == val / 10 / 10;
  }

  lemma DigitsOfThree(x: nat)
    requires x < 1000
    ensures x == 100 * (x / 100) + 10 * (x / 10 % 10) + x % 10 && x / 100 < 10
  {
  }

  /** The last three digits of a number are those of its remainder. */
  lemma LastDigits(val: nat)
    ensures val % 1000 % 10 == val % 10
    ensures val % 1000 / 10 % 10 == val / 10 % 10
    ensures val % 1000 / 100 == val / 100 % 10
  {
    var q, x := val / 1000, val % 1000;
    DigitsOfThree(x);
    ThreeDigits(q, x / 100, x / 10 % 10, x % 10);
    assert val == 1000 * q + 100 * (x / 100) + 10 * (x / 10 % 10) + x % 10;
  }

  /** Digits of the whole part are digits of the number. */
  lemma WholeDigits(val: nat)
    requires val <= LIMIT
    ensures val / 1000 / 100 == val / 100_000 == val / 100_000 % 10
    ensures val / 1000 / 10 == val / 10_000
  {
    DivideTwice(val, val / 1000, val % 1000, 10);
    DivideTwice(val, val / 1000, val % 1000, 100);
  }

  lemma EditedFraction(val: nat, negative: bool)
    requires val <= LIMIT
    ensures Edited(Padded(val), negative, PrintedLength(val))[4..] == "." + Fraction(val % 1000)
  {
    PaddedDigits(val);
    LastDigits(val);
    var s := Edited(Padded(val), negative, PrintedLength(val));
    assert s[7] == DigitChar(val % 10) && s[6] == DigitChar(val / 10 % 10) && s[5] == DigitChar(val / 100 % 10);
    assert s[4..] == [s[4], s[5], s[6], s[7]];
  }

  /** Sign and whole part, right-aligned in four characters. */
  function WholePart(w: nat, negative: bool): (s: string)
    requires w < 1000
    ensures |s| == 4
  {
    var sign := if negative then '-' else ' ';
    if w < 10 then [' ', ' ', sign, DigitChar(w)]
    else if w < 100 then [' ', sign, DigitChar(w / 10), DigitChar(w % 10)]
    else [sign, DigitChar(w / 100), DigitChar(w / 10 % 10), DigitChar(w % 10)]
  }

  lemma WholePartIsPadded(w: nat, negative: bool)
    requires w < 1000
    ensures var text := (if negative then "-" else "") + Whole(w); WholePart(w, negative) == Spaces(4 - |text|) + text
  {
  }

  lemma EditedWhole(val: nat, negative: bool)
    requires val <= LIMIT && (negative ==> val > 0)
    ensures Edited(Padded(val), negative, PrintedLength(val))[..4] == WholePart(val / 1000, negative)
  {
    PaddedDigits(val);
    WholeDigits(val);
    var s := Edited(Padded(val), negative, PrintedLength(val));
    assert s[..4] == [s[0], s[1], s[2], s[3]];
  }

  /** The edits turn the padded digits into the cell. */
  lemma EditedIsCell(val: nat, negative: bool, t: int)
    requires val <= LIMIT && (negative ==> val > 0) && t == if negative then 0 - val else val
    ensures Edited(Padded(val), negative, PrintedLength(val)) == Cell(t)
  {
    var s := Edited(Padded(val), negative, PrintedLength(val));
    EditedWhole(val, negative);
    EditedFraction(val, negative);
    assert s == s[..4] + s[4..];
    CellParts(val, negative, t);
  }

  lemma PadThenAppend(n: nat, text: string, rest: string)
    ensures Spaces(n) + (text + rest) == (Spaces(n) + text) + rest
  {
  }

  lemma CellParts(val: nat, negative: bool, t: int)
    requires val <= LIMIT && (negative ==> val > 0) && t == if negative then 0 - val else val
    ensures Cell(t) == WholePart(val / 1000, negative) + ("." + Fraction(val % 1000))
  {
    var sign := if negative then "-" else "";
    var whole, rest := Whole(val / 1000), "." + Fraction(val % 1000);
    WholePartIsPadded(val / 1000, negative);
    assert CellText(t) == (sign + whole) + rest;
    PadThenAppend(4 - |sign + whole|, sign + whole, rest);
  }

  /** snprintf(buf, 8, "%7d", val): seven characters and a terminator. */
  method PrintPadded(buf: array<char>, base: nat, val: nat)
    requires base + CELL <= buf.Length && val <= LIMIT
    modifies buf
    ensures buf[base..base + 7] == Padded(val)
    ensures buf[..base] == old(buf[..base])
  {
    var s := Padded(val) + "\0";
    for i := 0 to CELL
      invariant buf[base..base + i] == s[..i]
      invariant buf[..base] == old(buf[..base])
    {
      buf[base + i] := s[i];
    }
    assert buf[base..base + 7] == buf[base..base + CELL][..7];
  }

  /** print_float: the cell of x at position base. */
  method PrintFloat(buf: array<char>, base: nat, x: real)
    requires base + CELL <= buf.Length && Convertible(x)
    modifies buf
    ensures buf[base..base + CELL] == Cell(Thousandths(x))
    ensures buf[..base] == old(buf[..base])
  {
    var val := Truncate(x * 1000.0);
    var negative := val < 0;
    if negative {
      val := -val;
    }
    if val >= LIMIT {
      val := LIMIT;
    }
    PrintPadded(buf, base, val);
    EditCell(buf, base, negative, PrintedLength(val), Padded(val));
    EditedIsCell(val, negative, Thousandths(x));
  }

  /** The in-place edits: each step reads what the steps before it have left. */
  method EditCell(buf: array<char>, base: nat, negative: bool, c: nat, ghost padded: string)
    requires base + CELL <= buf.Length && |padded| == 7 && buf[base..base + 7] == padded && 1 <= c <= 6
    modifies buf
    ensures buf[base..base + CELL] == Edited(padded, negative, c)
    ensures buf[..base] == old(buf[..base])
  {
    assert forall i :: 0 <= i < 7 ==> buf[base..base + 7][i] == padded[i];
    if negative {
      buf[base + if 6 - c <= 2 then 6 - c else 2] := '-';
    }
    buf[base + 3] := ZeroIfBlank(buf[base + 3]);
    buf[base + 7] := ZeroIfBlank(buf[base + 6]);
    buf[base + 6] := ZeroIfBlank(buf[base + 5]);
    buf[base + 5] := ZeroIfBlank(buf[base + 4]);
    buf[base + 4] := '.';
  }
}
