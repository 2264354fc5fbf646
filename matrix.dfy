/**
 * The shape printer: a size, a one-character symbol and a shape name are
 * checked, then the shape is printed row by row. Each printed row is
 * modelled as a string (without its newline) appended to the output.
 *
 * The program works on C chars, that is bytes: each Dafny char here stands
 * for one byte, so a symbol whose encoding takes several bytes is several
 * chars and is rejected, as the C check rejects it.
 */
module Matrix {
  import opened Wrappers

  datatype Shape = Staircase | Pyramid | Diamond

  /** The name the user types for a shape. */
  function ShapeName(s: Shape): string
  {
    match s
    case Staircase => "staircase"
    case Pyramid => "pyramid"
    case Diamond => "diamond"
  }

  /** The shape a typed name selects, compared as whole strings. */
  function ParseShape(name: string): (r: Option<Shape>)
    ensures r.Some? ==> ShapeName(r.value) == name
  {
    if name == "staircase" then Some(Staircase)
    else if name == "pyramid" then Some(Pyramid)
    else if name == "diamond" then Some(Diamond)
    else None
  }

  /** Every shape is selected by its own name and by no other. */
  lemma ParseShapeRoundTrip(s: Shape, name: string)
    ensures ParseShape(ShapeName(s)) == Some(s)
    ensures ParseShape(name) == Some(s) <==> name == ShapeName(s)
  {
  }

  /**
   * The input check: a positive size, a symbol of exactly one character and
   * one of the three shape names.
   */
  method CheckInput(size: int, symbol: string, shape: string) returns (ok: bool)
    ensures ok <==> size > 0 && |symbol| == 1 && exists s: Shape :: shape == ShapeName(s)
  {
    ok := size > 0 && |symbol| == 1
      && (shape == "staircase" || shape == "pyramid" || shape == "diamond");
    if shape == "staircase" {
      assert shape == ShapeName(Staircase);
    } else if shape == "pyramid" {
      assert shape == ShapeName(Pyramid);
    } else if shape == "diamond" {
      assert shape == ShapeName(Diamond);
    }
  }

  // ---------------------------------------------------------------------
  // The rows, as specified.

  /** n copies of c. */
  function Repeat(c: char, n: nat): (s: string)
    ensures |s| == n && forall k :: 0 <= k < n ==> s[k] == c
  {
    if n == 0 then [] else Repeat(c, n - 1) + [c]
  }

  /** Row i (from 1) of a pyramid of the given size: size - i spaces, then 2i - 1 symbols. */
  function CenteredRow(size: nat, i: nat, symbol: char): string
    requires 1 <= i <= size
  {
    Repeat(' ', size - i) + Repeat(symbol, 2 * i - 1)
  }

  /** Row i (from 1) of a staircase: i symbols. */
  function StairRow(i: nat, symbol: char): string
  {
    Repeat(symbol, i)
  }

  function PyramidRows(size: nat, symbol: char): (rows: seq<string>)
    ensures |rows| == size
  {
    seq(size, k requires 0 <= k < size => CenteredRow(size, k + 1, symbol))
  }

  function StaircaseRows(size: nat, symbol: char): (rows: seq<string>)
    ensures |rows| == size
  {
    seq(size, k requires 0 <= k < size => StairRow(k + 1, symbol))
  }

  /** The pyramid, then its rows size - 1 down to 1. */
  function DiamondRows(size: nat, symbol: char): (rows: seq<string>)
    ensures |rows| == if size == 0 then 0 else 2 * size - 1
  {
    PyramidRows(size, symbol)
      + seq(if size == 0 then 0 else size - 1, k requires 0 <= k < size - 1 => CenteredRow(size, size - 1 - k, symbol))
  }

  function Rows(size: nat, symbol: char, shape: Shape): seq<string>
  {
    match shape
    case Pyramid => PyramidRows(size, symbol)
    case Staircase => StaircaseRows(size, symbol)
    case Diamond => DiamondRows(size, symbol)
  }

  // ---------------------------------------------------------------------
  // The printing loops.

  /** Prints one centred row: spaces while j counts down from size to i, then 2i - 1 symbols. */
  method PrintCentered(size: int, i: int, symbol: char) returns (line: string)
    requires 1 <= i <= size
    ensures line == CenteredRow(size, i, symbol)
  {
    line := [];
    var j := size;
    while j > i
      invariant i <= j <= size
      invariant line == Repeat(' ', size - j)
    {
      line := line + " ";
      j := j - 1;
    }
    j := 1;
    while j <= 2 * i - 1
      invariant 1 <= j <= 2 * i
      invariant line == Repeat(' ', size - i) + Repeat(symbol, j - 1)
    {
      line := line + [symbol];
      j := j + 1;
    }
  }

  method PrintPyramid(size: int, symbol: char) returns (rows: seq<string>)
    requires size > 0
    ensures rows == PyramidRows(size, symbol)
  {
    rows := [];
    var i := 1;
    while i <= size
      invariant 1 <= i <= size + 1
      invariant rows == PyramidRows(size, symbol)[..i - 1]
    {
      var line := PrintCentered(size, i, symbol);
      rows := rows + [line];
      i := i + 1;
    }
  }

  method PrintStaircase(size: int, symbol: char) returns (rows: seq<string>)
    requires size > 0
    ensures rows == StaircaseRows(size, symbol)
  {
    rows := [];
    var i := 1;
    while i <= size
      invariant 1 <= i <= size + 1
      invariant rows == StaircaseRows(size, symbol)[..i - 1]
    {
      var line := [];
      var j := 1;
      while j <= i
        invariant 1 <= j <= i + 1
        invariant line == Repeat(symbol, j - 1)
      {
        line := line + [symbol];
        j := j + 1;
      }
      rows := rows + [line];
      i := i + 1;
    }
  }

  method PrintDiamond(size: int, symbol: char) returns (rows: seq<string>)
    requires size > 0
    ensures rows == DiamondRows(size, symbol)
  {
    rows := PrintPyramid(size, symbol);
    var i := size - 1;
    while i >= 1
      invariant 0 <= i <= size - 1
      invariant rows == DiamondRows(size, symbol)[..2 * size - 1 - i]
    {
      var line := PrintCentered(size, i, symbol);
      rows := rows + [line];
      i := i - 1;
    }
  }

  /**
   * One round of the program: rejected input prints no shape (the criteria
   * message and the new prompt are I/O, left out); accepted input prints the
   * rows of the chosen shape.
   */
  method Round(size: int, symbol: string, shape: string) returns (out: Option<seq<string>>)
    ensures out.None? <==> !(size > 0 && |symbol| == 1 && ParseShape(shape).Some?)
    ensures out.Some? ==> out.value == Rows(size, symbol[0], ParseShape(shape).value)
  {
    var ok := CheckInput(size, symbol, shape);
    if !ok {
      if ParseShape(shape).Some? {
        assert shape == ShapeName(ParseShape(shape).value);
      }
      return None;
    }
    var rows;
    if shape == "pyramid" {
      rows := PrintPyramid(size, symbol[0]);
    } else if shape == "staircase" {
      rows := PrintStaircase(size, symbol[0]);
    } else {
      rows := PrintDiamond(size, symbol[0]);
    }
    return Some(rows);
  }

  // ---------------------------------------------------------------------
  // What the printed shapes look like.

  /**
   * Row k (from 0) of a pyramid of size rows is size + k characters wide, at
   * most 2 * size - 1: leading spaces, then symbols through the last column,
   * so no row ends in a space and the centre column always holds the symbol.
   */
  lemma PyramidRow(size: nat, symbol: char, k: nat)
    requires k < size
    ensures var row := PyramidRows(size, symbol)[k];
      && |row| == size + k <= 2 * size - 1
      && (forall t :: 0 <= t < size - 1 - k ==> row[t] == ' ')
      && (forall t :: size - 1 - k <= t < |row| ==> row[t] == symbol)
      && row[|row| - 1] == symbol && row[size - 1] == symbol
  {
    var row := PyramidRows(size, symbol)[k];
    var spaces := Repeat(' ', size - 1 - k);
    assert row == spaces + Repeat(symbol, 2 * k + 1);
    forall t | size - 1 - k <= t < |row| ensures row[t] == symbol {
      assert row[t] == Repeat(symbol, 2 * k + 1)[t - |spaces|];
    }
  }

  /** Row k (from 0) of a staircase is k + 1 symbols with no leading space; each row adds one symbol. */
  lemma StaircaseRow(size: nat, symbol: char, k: nat)
    requires k < size
    ensures var row := StaircaseRows(size, symbol)[k];
      |row| == k + 1 && forall t :: 0 <= t < |row| ==> row[t] == symbol
    ensures k + 1 < size ==> StaircaseRows(size, symbol)[k + 1] == StaircaseRows(size, symbol)[k] + [symbol]
  {
  }

  /**
   * A diamond of size rows has 2 * size - 1 rows: the pyramid on top, and a
   * mirror image below, row k equal to row 2 * size - 2 - k.
   */
  lemma DiamondShape(size: nat, symbol: char)
    requires size > 0
    ensures var d := DiamondRows(size, symbol);
      && d[..size] == PyramidRows(size, symbol)
      && forall k :: 0 <= k < 2 * size - 1 ==> d[k] == d[2 * size - 2 - k]
  {
    var d := DiamondRows(size, symbol);
    var p := PyramidRows(size, symbol);
    assert d[..size] == p;
    forall k | 0 <= k < 2 * size - 1 ensures d[k] == d[2 * size - 2 - k] {
      if k < size - 1 {
        assert d[2 * size - 2 - k] == CenteredRow(size, k + 1, symbol);
      } else if k >= size {
        assert d[k] == CenteredRow(size, 2 * size - 1 - k, symbol);
      }
    }
  }

  /** The widest row of a diamond is its middle row, 2 * size - 1 symbols. */
  lemma DiamondMiddle(size: nat, symbol: char)
    requires size > 0
    ensures DiamondRows(size, symbol)[size - 1] == Repeat(symbol, 2 * size - 1)
    ensures forall k :: 0 <= k < 2 * size - 1 ==> |DiamondRows(size, symbol)[k]| <= 2 * size - 1
  {
    assert Repeat(' ', 0) == [];
    var d := DiamondRows(size, symbol);
    forall k | 0 <= k < 2 * size - 1 ensures |d[k]| <= 2 * size - 1 {
      if k >= size {
        assert d[k] == CenteredRow(size, 2 * size - 1 - k, symbol);
      }
    }
  }

  /** A diamond of size 1 is a single one-symbol row: the lower half is empty. */
  lemma DiamondOfOne(symbol: char)
    ensures DiamondRows(1, symbol) == [[symbol]]
  {
    assert Repeat(' ', 0) == [];
    assert Repeat(symbol, 1) == [symbol];
  }
}
