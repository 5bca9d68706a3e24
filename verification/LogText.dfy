/**
 The dump of a packet in words: what the characters of a row mean, which areas
 apply to a byte, and that there is only one way to cut the visible cells into
 rows and gaps.
 */
module LogText {
  import opened Marshal
  import opened LogPacket

  // ----- a row

  /** The value of a hexadecimal digit, or a number no digit has. */
  function DigitValue(c: char): nat {
    if '0' <= c <= '9' then c as int - '0' as int
    else if 'a' <= c <= 'f' then c as int - 'a' as int + 10
    else 16
  }

  /** The number that hexadecimal digits denote. */
  function HexNumber(t: string): nat {
    if t == "" then 0 else HexNumber(t[..|t| - 1]) * 16 + DigitValue(t[|t| - 1])
  }

  predicate AllDigits(t: string) {
    forall i :: 0 <= i < |t| ==> DigitValue(t[i]) < 16
  }

  lemma DigitMeans(n: nat)
    requires n < 16
    ensures DigitValue(HexDigit(n)) == n
  {
    assert n == 0 || n == 1 || n == 2 || n == 3 || n == 4 || n == 5 || n == 6 || n == 7
      || n == 8 || n == 9 || n == 10 || n == 11 || n == 12 || n == 13 || n == 14 || n == 15;
  }

  /** How one cell appears: two digits and a character, or XX and X. */
  predicate ShowsCell(c: Cell, high: char, low: char, text: char) {
    match c
    case Shown(b) =>
      && DigitValue(high) < 16 && DigitValue(low) < 16 && 16 * DigitValue(high) + DigitValue(low) == b
      && text == if 0x20 <= b < 0x7F then b as char else '.'
    case Blanked => high == 'X' && low == 'X' && text == 'X'
    case Omitted => false
  }

  lemma CellShown(c: Cell)
    requires !c.Omitted?
    ensures ShowsCell(c, CellHex(c, false), CellHex(c, true), CellText(c))
  {
    hide HexDigit, DigitValue;
    if c.Shown? {
      DigitMeans(c.b / 16);
      DigitMeans(c.b % 16);
    }
  }

  lemma {:induction false} ShiftedBound(n: nat, k: nat)
    ensures Shifted(n, k) * Pow16(k) <= n
  {
    if k > 0 {
      ShiftedBound(n, k - 1);
      var a, b := Shifted(n, k - 1), Shifted(n, k);
      assert b * 16 <= a;
      assert b * 16 * Pow16(k - 1) <= a * Pow16(k - 1);
      assert b * (16 * Pow16(k - 1)) == b * 16 * Pow16(k - 1);
    }
  }

  function Pow16(k: nat): nat {
    if k == 0 then 1 else 16 * Pow16(k - 1)
  }

  lemma ShiftedOut(n: nat)
    requires n < TWO32
    ensures Shifted(n, 8) == 0
  {
    ShiftedBound(n, 8);
    assert Pow16(2) == 256 && Pow16(4) == 0x1_0000 && Pow16(6) == 0x100_0000 && Pow16(8) == TWO32;
  }

  /** The digits from the top down to position m denote the number without the rest. */
  lemma {:induction false} OffsetDigits(n: nat, t: string, m: nat)
    requires n < TWO32 && |t| == 8 && m <= 8
    requires forall i :: 0 <= i < 8 ==> t[i] == HexDigit(Shifted(n, 7 - i) % 16)
    ensures HexNumber(t[..m]) == Shifted(n, 8 - m) && AllDigits(t[..m])
  {
    hide HexDigit, DigitValue;
    if m == 0 {
      ShiftedOut(n);
    } else {
      OffsetDigits(n, t, m - 1);
      assert t[..m][..m - 1] == t[..m - 1];
      DigitMeans(Shifted(n, 8 - m) % 16);
      assert Shifted(n, 8 - m + 1) == Shifted(n, 8 - m) / 16;
    }
  }

  /** Column col is where some cell of the row is shown. */
  predicate IsCellColumn(s: nat, cs: seq<Cell>, col: nat) {
    exists i :: 0 <= i < |cs| && CellColumn(s, i, col)
  }

  predicate CellColumn(s: nat, i: int, col: nat) {
    col == 12 + 3 * (s % 16 + i) || col == 13 + 3 * (s % 16 + i) || col == 61 + s % 16 + i
  }

  /** A row: two spaces, the eight digits of the position of its first column, two
      digits for each byte at its place among sixteen, and the bytes as text; spaces
      between, and a line end. */
  lemma RowInWords(s: nat, cs: seq<Cell>)
    requires RowFits(Cells(s, cs)) && s < TWO32
    ensures var t, first := LineOf(Cells(s, cs)).text, s % 16;
      && |t| == 61 + first + |cs| + 2 && t[|t| - 2..] == "\r\n"
      && AllDigits(t[2..10]) && HexNumber(t[2..10]) == s - first
      && (forall i :: 0 <= i < |cs| ==>
            ShowsCell(cs[i], t[12 + 3 * (first + i)], t[13 + 3 * (first + i)], t[61 + first + i]))
      && (forall col :: 0 <= col < |t| - 2 && !(2 <= col < 10) && !IsCellColumn(s, cs, col) ==> t[col] == ' ')
  {
    hide RowChar, CellHex, CellText, RowFits, ShowsCell, AllDigits, IsCellColumn;
    RowFitsMeans(s, cs);
    var t, first := LineOf(Cells(s, cs)).text, s % 16;
    OffsetShown(s, cs);
    forall i | 0 <= i < |cs|
      ensures ShowsCell(cs[i], t[12 + 3 * (first + i)], t[13 + 3 * (first + i)], t[61 + first + i])
    {
      CellAppears(s, cs, i);
    }
    forall col | 0 <= col < |t| - 2 && !(2 <= col < 10) && !IsCellColumn(s, cs, col) ensures t[col] == ' ' {
      TextAt(s, cs, col);
      OtherColumn(s, cs, col);
    }
  }

  lemma OffsetShown(s: nat, cs: seq<Cell>)
    requires s < TWO32
    ensures var t := LineOf(Cells(s, cs)).text;
      |t| > 10 && AllDigits(t[2..10]) && HexNumber(t[2..10]) == s - s % 16
  {
    hide RowChar, AllDigits;
    var t := LineOf(Cells(s, cs)).text;
    TextAt(s, cs, 10);
    forall i | 0 <= i < 8 ensures t[2..10][i] == HexDigit(Shifted(s - s % 16, 7 - i) % 16) {
      TextAt(s, cs, 2 + i);
      OffsetColumn(s, cs, i);
    }
    OffsetDigits(s - s % 16, t[2..10], 8);
    assert t[2..10][..8] == t[2..10];
  }

  lemma CellAppears(s: nat, cs: seq<Cell>, i: nat)
    requires i < |cs| && s % 16 + |cs| <= 16 && !cs[i].Omitted?
    ensures var t, first := LineOf(Cells(s, cs)).text, s % 16;
      && |t| > 61 + first + i
      && ShowsCell(cs[i], t[12 + 3 * (first + i)], t[13 + 3 * (first + i)], t[61 + first + i])
  {
    hide RowChar, CellHex, CellText, ShowsCell;
    Columns(s, cs, i);
    CellShown(cs[i]);
    TextAt(s, cs, 12 + 3 * (s % 16 + i));
    TextAt(s, cs, 13 + 3 * (s % 16 + i));
    TextAt(s, cs, 61 + s % 16 + i);
  }

  lemma OffsetColumn(s: nat, cs: seq<Cell>, i: nat)
    requires i < 8
    ensures RowChar(s, cs, 2 + i) == HexDigit(Shifted(s - s % 16, 7 - i) % 16)
  {
    hide HexDigit;
  }

  lemma OtherColumn(s: nat, cs: seq<Cell>, col: nat)
    requires !(2 <= col < 10) && !IsCellColumn(s, cs, col)
    ensures RowChar(s, cs, col) == ' '
  {
    hide HexDigit, CellHex, CellText;
    var first := s % 16;
    if HEX <= col < 60 {
      var k := (col - HEX) / 3;
      assert !(0 <= k - first < |cs|) || !CellColumn(s, k - first, col);
    } else if ASCII <= col < WIDTH {
      assert !(0 <= col - ASCII - first < |cs|) || !CellColumn(s, col - ASCII - first, col);
    }
  }

  // ----- the areas

  /** With the areas in order, a byte is treated by the one area that covers it, and
      shown if there is none. */
  lemma {:induction false} KindAtMeans(blanks: seq<Area>, p: nat)
    requires InOrder(blanks)
    ensures forall i :: 0 <= i < |blanks| && Covers(blanks[i], p) ==> KindAt(blanks, p) == blanks[i].kind
    ensures (forall i :: 0 <= i < |blanks| ==> !Covers(blanks[i], p)) ==> KindAt(blanks, p) == EmitBytes
  {
    if blanks != [] && !Covers(blanks[0], p) {
      KindAtMeans(blanks[1..], p);
    }
  }

  // ----- rows and gaps

  /** A gap is a whole run of omitted bytes. */
  predicate IsGap(cells: seq<Cell>, p: nat, q: nat) {
    && p < q <= |cells|
    && (forall k :: p <= k < q ==> cells[k].Omitted?)
    && (q < |cells| ==> !cells[q].Omitted?)
  }

  /** A row shows the bytes up to the next multiple of sixteen, the next omitted one
      or the end. */
  predicate IsRow(cells: seq<Cell>, p: nat, q: nat) {
    && p < q <= |cells| && p % 16 + (q - p) <= 16
    && (forall k :: p <= k < q ==> !cells[k].Omitted?)
    && (q < |cells| ==> q % 16 == 0 || cells[q].Omitted?)
  }

  function Size(x: Piece): nat {
    match x
    case Cells(_, cs) => |cs|
    case Skipped(n) => n
  }

  /** One piece, from p on. */
  predicate IsPiece(cells: seq<Cell>, p: nat, x: Piece) {
    var q := p + Size(x);
    match x
    case Skipped(_) => IsGap(cells, p, q)
    case Cells(start, cs) => IsRow(cells, p, q) && start == p && cs == cells[p..q]
  }

  /** The pieces are such rows and gaps from p to the end, each where the one before
      it ends. */
  predicate IsCut(cells: seq<Cell>, p: nat, ps: seq<Piece>)
    decreases |ps|
  {
    if ps == [] then p == |cells|
    else IsPiece(cells, p, ps[0]) && IsCut(cells, p + Size(ps[0]), ps[1..])
  }

  lemma GapIs(cells: seq<Cell>, p: nat, q: nat)
    requires p < |cells| && cells[p].Omitted? && p < q <= |cells|
    ensures IsGap(cells, p, q) <==> q == GapEnd(cells, p + 1)
  {
    var end := GapEnd(cells, p + 1);
    assert GapStops(cells, end);
    if IsGap(cells, p, q) {
      assert GapStops(cells, q);
    }
    if q == end {
      forall k | p <= k < q ensures cells[k].Omitted? {
        assert k == p || !GapStops(cells, k);
      }
    }
  }

  lemma RowIs(cells: seq<Cell>, p: nat, q: nat)
    requires p < |cells| && !cells[p].Omitted? && p < q <= |cells|
    ensures IsRow(cells, p, q) <==> q == RowEnd(cells, p + 1)
  {
    var end := RowEnd(cells, p + 1);
    assert RowStops(cells, end);
    if IsRow(cells, p, q) {
      assert RowStops(cells, q);
      forall k | p < k < q ensures !RowStops(cells, k) {
        BetweenMultiples(p, k, q);
      }
    }
    if q == end {
      forall k | p <= k < q ensures !cells[k].Omitted? {
        assert k == p || !RowStops(cells, k);
      }
      SameRow(cells, p, q);
    }
  }

  lemma BetweenMultiples(p: nat, k: nat, q: nat)
    requires p < k < q && p % 16 + (q - p) <= 16
    ensures k % 16 != 0
  {
  }

  function PieceAt(cells: seq<Cell>, p: nat): (x: Piece)
    requires p < |cells|
    ensures p < p + Size(x) <= |cells|
  {
    if cells[p].Omitted? then Skipped(GapEnd(cells, p + 1) - p) else Cells(p, cells[p..RowEnd(cells, p + 1)])
  }

  /** There is just one piece that can come next. */
  lemma PieceIs(cells: seq<Cell>, p: nat, x: Piece)
    requires p < |cells|
    ensures IsPiece(cells, p, x) <==> x == PieceAt(cells, p)
  {
    var q := p + Size(x);
    if cells[p].Omitted? {
      GapIs(cells, p, GapEnd(cells, p + 1));
      if p < q <= |cells| {
        GapIs(cells, p, q);
      }
    } else {
      RowIs(cells, p, RowEnd(cells, p + 1));
      if p < q <= |cells| {
        RowIs(cells, p, q);
      }
    }
    hide RowStops, GapStops;
  }

  lemma PiecesNext(cells: seq<Cell>, p: nat)
    requires p <= |cells|
    ensures p == |cells| ==> Pieces(cells, p) == []
    ensures p < |cells| ==>
      var x := PieceAt(cells, p);
      Pieces(cells, p) == [x] + Pieces(cells, p + Size(x))
  {
    hide RowStops, GapStops;
    if p < |cells| {
      PiecesStep(cells, p);
    }
  }

  /** The reference cut is the one way to cut the visible cells into such rows and
      gaps. */
  lemma {:induction false} CutExactly(cells: seq<Cell>, p: nat, ps: seq<Piece>)
    requires p <= |cells|
    ensures IsCut(cells, p, ps) <==> ps == Pieces(cells, p)
    decreases |cells| - p
  {
    hide IsPiece, PieceAt;
    PiecesNext(cells, p);
    if p < |cells| && ps != [] {
      PieceIs(cells, p, ps[0]);
      var x := PieceAt(cells, p);
      if ps[0] == x {
        CutExactly(cells, p + Size(x), ps[1..]);
        assert ps == [x] + ps[1..];
        assert ([x] + Pieces(cells, p + Size(x)))[1..] == Pieces(cells, p + Size(x));
      }
    } else if ps != [] {
      NoPiece(cells, p, ps[0]);
    }
  }

  lemma NoPiece(cells: seq<Cell>, p: nat, x: Piece)
    requires p >= |cells|
    ensures !IsPiece(cells, p, x)
  {
  }

  /** Each piece gives one line, in order: a gap its count, a row its text. */
  lemma {:induction false} LinesInWords(ps: seq<Piece>, i: nat)
    requires i < |ps|
    ensures |Lines(ps)| == |ps|
    ensures ps[i].Skipped? ==> Lines(ps)[i] == Gap(ps[i].count)
    ensures ps[i].Cells? ==> Lines(ps)[i].Row? && Lines(ps)[i] == LineOf(ps[i])
  {
    if i > 0 {
      LinesInWords(ps[1..], i - 1);
    } else if |ps| > 1 {
      LinesInWords(ps[1..], 0);
    }
  }
}
