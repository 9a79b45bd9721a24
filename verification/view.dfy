/** The text shown on a tile. Colours are configuration values and appear
    here only as tags. */
module View {
  import opened Options
  import opened HexGrid
  import opened Model

  datatype TextColor = MineColor | HintColor | FlagColor | Pink

  function Digit(d: nat): char
    requires d < 10
  {
    "0123456789"[d]
  }

  /** The value of a decimal digit character. */
  function DigitValue(c: char): nat {
    if '0' <= c <= '9' then (c as int - '0' as int) as nat else 0
  }

  /** `format!("{}", n)` for an unsigned `n`. */
  function Decimal(n: nat): (s: string)
    ensures |s| >= 1
    ensures forall i | 0 <= i < |s| :: '0' <= s[i] <= '9'
    ensures n >= 10 ==> s[0] != '0'
  {
    if n < 10 then [Digit(n)] else Decimal(n / 10) + [Digit(n % 10)]
  }

  /** Reads a string of decimal digits back. */
  function ParseDecimal(s: string): nat {
    if s == [] then 0 else ParseDecimal(s[..|s| - 1]) * 10 + DigitValue(s[|s| - 1])
  }

  lemma {:induction false} DecimalRoundTrip(n: nat)
    ensures ParseDecimal(Decimal(n)) == n
    decreases n
  {
    if n < 10 {
      assert [Digit(n)][..0] == [];
    } else {
      DecimalRoundTrip(n / 10);
      var s := Decimal(n);
      assert s[..|s| - 1] == Decimal(n / 10);
      assert DigitValue(s[|s| - 1]) == n % 10;
      assert ParseDecimal(s) == (n / 10) * 10 + n % 10;
    }
  }

  /** `get_tile_text_and_color`. */
  function TileTextAndColor(b: GameBoard, grid: PointyHexGrid): (r: (string, TextColor))
    ensures Get(b, grid).None? ==> r == ("ERROR", Pink)
    ensures Get(b, grid).Some? && Get(b, grid).value.isOpen ==> r.0 != "F" && r.0 != " "
  {
    match Get(b, grid)
    case Some(tile) =>
      if tile.isOpen then
        if tile.isMine then ("M", MineColor)
        else
          // On the board, so the adjacent count is present.
          (Decimal(CountAdjacentMines(b, grid).value), HintColor)
      else if tile.isFlag then ("F", FlagColor)
      else (" ", Pink)
    case None => ("ERROR", Pink)
  }

  /** On a valid board the label tells the tile's state exactly: which case it
      is in, and for an open safe tile the number of adjacent mines as a
      single digit. */
  lemma TileTextReveals(b: GameBoard, grid: PointyHexGrid)
    requires Valid(b)
    ensures
      var text := TileTextAndColor(b, grid).0;
      var t := Get(b, grid);
      && (text == "ERROR" <==> IsOutOfBound(b, grid))
      && (text == "M" <==> t.Some? && t.value.isOpen && t.value.isMine)
      && (text == "F" <==> t.Some? && !t.value.isOpen && t.value.isFlag)
      && (text == " " <==> t.Some? && !t.value.isOpen && !t.value.isFlag)
      && (t.Some? && t.value.isOpen && !t.value.isMine ==>
            && |text| == 1 && '0' <= text[0] <= '6'
            && CountAdjacentMines(b, grid) == Some(ParseDecimal(text)))
  {
    GetSpec(b, grid);
    var text := TileTextAndColor(b, grid).0;
    var t := Get(b, grid);
    if t.Some? && t.value.isOpen && !t.value.isMine {
      var k := CountAdjacentMines(b, grid).value;
      assert text == [Digit(k)];
      DecimalRoundTrip(k);
      assert text != "M" && text != "ERROR";
    }
  }
}
