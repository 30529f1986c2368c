/** The text print_field shows for one cell: the glyph chosen from the cell's
    status and cached value. The console output around it (row and column
    labels, separating spaces) is not part of this module. */
module Report {
  import opened Codes
  import opened Grid
  import Engine

  predicate IsDigit(ch: char) {
    '0' <= ch <= '9'
  }

  function DigitChar(d: int): (ch: char)
    requires 0 <= d <= 9
    ensures IsDigit(ch) && ch as int - '0' as int == d
  {
    ('0' as int + d) as char
  }

  /** Decimal notation of a natural number, most significant digit first,
      without leading zeros: what an int sent to an output stream prints. */
  function Digits(n: nat): (s: string)
    ensures |s| >= 1 && forall k :: 0 <= k < |s| ==> IsDigit(s[k])
    ensures n < 10 <==> |s| == 1
    ensures s[0] == '0' <==> n == 0
    decreases n
  {
    if n < 10 then [DigitChar(n)] else Digits(n / 10) + [DigitChar(n % 10)]
  }

  /** Reads a string of digits back as a number. */
  function ParseDigits(s: string): nat
    requires forall k :: 0 <= k < |s| ==> IsDigit(s[k])
    decreases |s|
  {
    if |s| == 0 then 0
    else
      assert IsDigit(s[|s| - 1]);
      ParseDigits(s[..|s| - 1]) * 10 + (s[|s| - 1] as int - '0' as int)
  }

  /** Printing a count and reading it back gives the count. */
  lemma {:induction false} DigitsRoundTrip(n: nat)
    ensures ParseDigits(Digits(n)) == n
    decreases n
  {
    if n >= 10 {
      DigitsRoundTrip(n / 10);
      var s := Digits(n);
      assert s[..|s| - 1] == Digits(n / 10);
    }
  }

  /** Decimal notation of any int, with a leading '-' when negative. */
  function Decimal(v: int): (s: string)
    ensures v >= 0 ==> s == Digits(v)
    ensures v < 0 ==> |s| >= 2 && s[0] == '-' && s[1..] == Digits(-v)
  {
    if v < 0 then "-" + Digits(-v) else Digits(v)
  }

  /** The glyph of one cell: a revealed mine is X, a revealed safe cell shows
      its count, NEW is blank, FLAGGED is F, QUESTION is ?, and any other
      status is the corruption marker E. */
  function Glyph(status: int, value: int): (g: string)
    ensures |g| >= 1
    ensures g == "E" <==> !IsStatus(status)
    ensures g == "X" <==> status == STATUS_REVEALED && value == -1
    ensures g == " " <==> status == STATUS_NEW
    ensures g == "F" <==> status == STATUS_FLAGGED
    ensures g == "?" <==> status == STATUS_QUESTION
    ensures status == STATUS_REVEALED && value >= 0 ==>
      (forall k :: 0 <= k < |g| ==> IsDigit(g[k])) && ParseDigits(g) == value
  {
    if status == STATUS_REVEALED then
      (if value == -1 then "X"
       else
         DigitsRoundTrip(if value < 0 then -value else value);
         Decimal(value))
    else if status == STATUS_NEW then " "
    else if status == STATUS_FLAGGED then "F"
    else if status == STATUS_QUESTION then "?"
    else "E"
  }

  /** A safe cell's count in a consistent mine field is a single digit. */
  lemma SafeCountDigit(f: Engine.MineField, x: int, y: int)
    requires f.Valid() && InGrid(f.size, x, y) && f.field[x, y] != -1
    ensures 0 <= f.field[x, y] <= 8
  {
    var block := Around(f.size, x, y);
    assert f.field[x, y] == f.MinedAround(x, y) == |f.Mines() * block|;
    AroundCard(f.size, x, y);
    assert (x, y) !in f.Mines();
    assert f.Mines() * block <= block - {(x, y)};
    SubsetCard(f.Mines() * block, block - {(x, y)});
  }

  /** In a consistent mine field every cell prints as exactly one character
      drawn from blank, F, ?, X and the digits 0 to 8: a safe cell has at most
      eight neighbours, so its count is a single digit, and the corruption
      marker E never appears. */
  lemma ReportAlphabet(f: Engine.MineField, x: int, y: int)
    requires f.Valid() && InGrid(f.size, x, y)
    ensures |Glyph(f.status[x, y], f.field[x, y])| == 1
    ensures Glyph(f.status[x, y], f.field[x, y])[0] in " F?X012345678"
    ensures Glyph(f.status[x, y], f.field[x, y]) != "E"
  {
    var s, v := f.status[x, y], f.field[x, y];
    assert IsStatus(s);
    if s == STATUS_REVEALED && v != -1 {
      SafeCountDigit(f, x, y);
      assert Glyph(s, v) == [DigitChar(v)];
    }
  }
}
