/**
 The packet dump of the session log (log_packet in logging.c).

 A packet is dumped sixteen bytes to a row in hexadecimal and ASCII.  Blanking
 areas hide parts of it: a blanked byte shows as XX, and a run of omitted bytes
 is replaced by its length.  Everything printed is a function of the visible
 part of the packet.
 */
module LogPacket {
  import opened Marshal

  datatype BlankType = EmitBytes | BlankBytes | OmitBytes

  datatype Area = Area(offset: nat, len: nat, kind: BlankType)

  /** What the log may show of one byte. */
  datatype Cell = Shown(b: byte) | Blanked | Omitted

  datatype Line = Row(text: string) | Gap(count: nat)

  // ----- what is visible

  /** The areas come in increasing order and do not overlap. */
  predicate InOrder(blanks: seq<Area>) {
    forall i, j :: 0 <= i < j < |blanks| ==> blanks[i].offset + blanks[i].len <= blanks[j].offset
  }

  predicate Covers(a: Area, p: nat) {
    a.offset <= p < a.offset + a.len
  }

  /** How byte p is treated: by the area that covers it, or shown. */
  function KindAt(blanks: seq<Area>, p: nat): BlankType {
    if blanks == [] then EmitBytes
    else if Covers(blanks[0], p) then blanks[0].kind
    else KindAt(blanks[1..], p)
  }

  function CellAt(data: seq<byte>, blanks: seq<Area>, p: nat): Cell
    requires p < |data|
  {
    match KindAt(blanks, p)
    case EmitBytes => Shown(data[p])
    case BlankBytes => Blanked
    case OmitBytes => Omitted
  }

  function View(data: seq<byte>, blanks: seq<Area>): (cells: seq<Cell>)
    ensures |cells| == |data| && forall p :: 0 <= p < |data| ==> cells[p] == CellAt(data, blanks, p)
  {
    seq(|data|, p requires 0 <= p < |data| => CellAt(data, blanks, p))
  }

  // ----- the reference dump

  datatype Piece = Cells(start: nat, cells: seq<Cell>) | Skipped(count: nat)

  /** A row being printed ends before position q. */
  predicate RowStops(cells: seq<Cell>, q: nat)
    requires q <= |cells|
  {
    q == |cells| || q % 16 == 0 || cells[q].Omitted?
  }

  predicate GapStops(cells: seq<Cell>, q: nat)
    requires q <= |cells|
  {
    q == |cells| || !cells[q].Omitted?
  }

  function RowEnd(cells: seq<Cell>, q: nat): (end: nat)
    requires q <= |cells|
    ensures q <= end <= |cells| && RowStops(cells, end)
    ensures forall k :: q <= k < end ==> !RowStops(cells, k)
    decreases |cells| - q
  {
    if RowStops(cells, q) then q else RowEnd(cells, q + 1)
  }

  function GapEnd(cells: seq<Cell>, q: nat): (end: nat)
    requires q <= |cells|
    ensures q <= end <= |cells| && GapStops(cells, end)
    ensures forall k :: q <= k < end ==> !GapStops(cells, k)
    decreases |cells| - q
  {
    if GapStops(cells, q) then q else GapEnd(cells, q + 1)
  }

  /** The cells from p on, cut into rows and gaps. */
  function Pieces(cells: seq<Cell>, p: nat): seq<Piece>
    requires p <= |cells|
    decreases |cells| - p
  {
    if p == |cells| then []
    else if cells[p].Omitted? then
      var q := GapEnd(cells, p + 1);
      [Skipped(q - p)] + Pieces(cells, q)
    else
      var q := RowEnd(cells, p + 1);
      [Cells(p, cells[p..q])] + Pieces(cells, q)
  }

  // ----- how a row looks

  const WIDTH := 77
  const HEX := 12
  const ASCII := 61

  function HexDigit(n: nat): char
    requires n < 16
  {
    "0123456789abcdef"[n]
  }

  /** n without its last k hexadecimal digits. */
  function Shifted(n: nat, k: nat): nat {
    if k == 0 then n else Shifted(n, k - 1) / 16
  }

  function CellHex(c: Cell, low: bool): char {
    match c
    case Shown(b) => HexDigit(if low then b % 16 else b / 16)
    case _ => 'X'
  }

  function CellText(c: Cell): char {
    match c
    case Shown(b) => if 0x20 <= b < 0x7F then b as char else '.'
    case _ => 'X'
  }

  /** Column col of the row that shows the cells cs of a packet from byte s. */
  function RowChar(s: nat, cs: seq<Cell>, col: nat): char {
    var first := s % 16;
    if 2 <= col < 10 then HexDigit(Shifted(s - first, 9 - col) % 16)
    else if HEX <= col < 60 && (col - HEX) % 3 < 2 && first <= (col - HEX) / 3 < first + |cs| then
      CellHex(cs[(col - HEX) / 3 - first], (col - HEX) % 3 == 1)
    else if ASCII <= col < WIDTH && first <= col - ASCII < first + |cs| then
      CellText(cs[col - ASCII - first])
    else ' '
  }

  function RowPrefix(s: nat, cs: seq<Cell>, width: nat): (t: string)
    ensures |t| == width && forall i :: 0 <= i < width ==> t[i] == RowChar(s, cs, i)
  {
    seq(width, i requires 0 <= i => RowChar(s, cs, i))
  }

  function LineOf(piece: Piece): Line {
    match piece
    case Skipped(n) => Gap(n)
    case Cells(s, cs) => Row(RowPrefix(s, cs, ASCII + s % 16 + |cs|) + "\r\n")
  }

  function Lines(ps: seq<Piece>): seq<Line> {
    if ps == [] then [] else [LineOf(ps[0])] + Lines(ps[1..])
  }

  function Dump(cells: seq<Cell>): seq<Line> {
    Lines(Pieces(cells, 0))
  }

  // ----- properties of the reference

  function OmittedRun(n: nat): (s: seq<Cell>)
    ensures |s| == n && forall i :: 0 <= i < n ==> s[i] == Omitted
  {
    seq(n, _ => Omitted)
  }

  function Expand(ps: seq<Piece>): seq<Cell> {
    if ps == [] then []
    else
      (match ps[0]
       case Skipped(n) => OmittedRun(n)
       case Cells(_, cs) => cs) + Expand(ps[1..])
  }

  predicate RowFits(p: Piece) {
    p.Cells? ==> 0 < |p.cells| && p.start % 16 + |p.cells| <= 16 && forall c :: c in p.cells ==> !c.Omitted?
  }

  /** Every byte is accounted for exactly once and in order: laying the pieces end
      to end gives back the visible cells, and each row stays within sixteen. */
  lemma {:induction false} DumpAccounts(cells: seq<Cell>, p: nat)
    requires p <= |cells|
    ensures Expand(Pieces(cells, p)) == cells[p..]
    ensures AllFit(Pieces(cells, p))
    decreases |cells| - p
  {
    if p < |cells| {
      hide AllFit, RowStops, GapStops;
      var q := if cells[p].Omitted? then GapEnd(cells, p + 1) else RowEnd(cells, p + 1);
      var rest := Pieces(cells, q);
      DumpAccounts(cells, q);
      if cells[p].Omitted? {
        AccountGap(cells, p, q, rest);
      } else {
        AccountRow(cells, p, q, rest);
      }
      PiecesStep(cells, p);
    }
  }

  lemma PiecesStep(cells: seq<Cell>, p: nat)
    requires p < |cells|
    ensures Pieces(cells, p) ==
      if cells[p].Omitted? then [Skipped(GapEnd(cells, p + 1) - p)] + Pieces(cells, GapEnd(cells, p + 1))
      else [Cells(p, cells[p..RowEnd(cells, p + 1)])] + Pieces(cells, RowEnd(cells, p + 1))
  {
  }

  lemma AccountGap(cells: seq<Cell>, p: nat, q: nat, rest: seq<Piece>)
    requires p < |cells| && cells[p].Omitted? && q == GapEnd(cells, p + 1)
    requires Expand(rest) == cells[q..] && AllFit(rest)
    ensures Expand([Skipped(q - p)] + rest) == cells[p..] && AllFit([Skipped(q - p)] + rest)
  {
    WholeGap(cells, p, q);
    hide *;
    GapFits(q - p);
    PiecesFront(Skipped(q - p), rest);
  }

  lemma AccountRow(cells: seq<Cell>, p: nat, q: nat, rest: seq<Piece>)
    requires p < |cells| && !cells[p].Omitted? && q == RowEnd(cells, p + 1)
    requires Expand(rest) == cells[q..] && AllFit(rest)
    ensures Expand([Cells(p, cells[p..q])] + rest) == cells[p..] && AllFit([Cells(p, cells[p..q])] + rest)
  {
    WholeRow(cells, p, q);
    assert cells[p..] == cells[p..q] + cells[q..];
    hide *;
    PiecesFront(Cells(p, cells[p..q]), rest);
  }

  predicate AllFit(ps: seq<Piece>) {
    forall x :: x in ps ==> RowFits(x)
  }

  lemma PiecesFront(x: Piece, ps: seq<Piece>)
    requires RowFits(x) && AllFit(ps)
    ensures AllFit([x] + ps)
    ensures Expand([x] + ps) == (match x case Skipped(n) => OmittedRun(n) case Cells(_, cs) => cs) + Expand(ps)
  {
    assert ([x] + ps)[1..] == ps;
  }

  lemma GapFits(n: nat)
    ensures RowFits(Skipped(n))
  {
  }

  lemma WholeGap(cells: seq<Cell>, p: nat, q: nat)
    requires p < |cells| && cells[p].Omitted? && p < q <= |cells|
    requires forall k :: p + 1 <= k < q ==> !GapStops(cells, k)
    ensures cells[p..] == OmittedRun(q - p) + cells[q..]
  {
    var run := OmittedRun(q - p) + cells[q..];
    forall i | 0 <= i < |run| ensures run[i] == cells[p..][i] {
      assert i == 0 || p + i >= q || !GapStops(cells, p + i);
    }
  }

  lemma WholeRow(cells: seq<Cell>, p: nat, q: nat)
    requires p < |cells| && !cells[p].Omitted? && p < q <= |cells|
    requires forall k :: p + 1 <= k < q ==> !RowStops(cells, k)
    ensures RowFits(Cells(p, cells[p..q]))
  {
    SameRow(cells, p, q);
    forall c | c in cells[p..q] ensures !c.Omitted? {
      var k :| p <= k < q && cells[k] == c;
      assert k == p || !RowStops(cells, k);
    }
  }

  lemma SameRow(cells: seq<Cell>, p: nat, q: nat)
    requires p < q <= |cells|
    requires forall k :: p < k < q ==> !RowStops(cells, k)
    ensures p % 16 + (q - p) <= 16
  {
    var next := p - p % 16 + 16;
    assert next % 16 == 0;
    if next < q {
      assert RowStops(cells, next);
    }
  }

  /** Two packets of equal length that agree wherever a byte is shown. */
  predicate SameShown(data: seq<byte>, other: seq<byte>, blanks: seq<Area>) {
    |data| == |other| && forall p :: 0 <= p < |data| && KindAt(blanks, p).EmitBytes? ==> data[p] == other[p]
  }

  /** Noninterference: the dump shows nothing of a hidden byte. */
  lemma DumpHides(data: seq<byte>, other: seq<byte>, blanks: seq<Area>)
    requires SameShown(data, other, blanks)
    ensures Dump(View(data, blanks)) == Dump(View(other, blanks))
  {
    assert View(data, blanks) == View(other, blanks);
  }

  lemma HexReadsBack(c: Cell, d: Cell)
    requires !c.Omitted? && !d.Omitted?
    requires CellHex(c, false) == CellHex(d, false) && CellHex(c, true) == CellHex(d, true)
    ensures c == d
  {
    var digits := "0123456789abcdef";
    assert forall i, j :: 0 <= i < j < 16 ==> digits[i] != digits[j];
    assert forall i :: 0 <= i < 16 ==> digits[i] != 'X';
  }

  lemma RowReadsBack(s: nat, cs: seq<Cell>, ds: seq<Cell>)
    requires RowFits(Cells(s, cs)) && RowFits(Cells(s, ds))
    requires LineOf(Cells(s, cs)) == LineOf(Cells(s, ds))
    ensures cs == ds
  {
    hide RowChar, CellHex, RowFits;
    RowFitsMeans(s, cs);
    RowFitsMeans(s, ds);
    assert |cs| == |ds| by {
      assert |LineOf(Cells(s, cs)).text| == |LineOf(Cells(s, ds)).text|;
    }
    forall i | 0 <= i < |cs| ensures cs[i] == ds[i] {
      var col := HEX + 3 * (s % 16 + i);
      Columns(s, cs, i);
      Columns(s, ds, i);
      TextAt(s, cs, col);
      TextAt(s, ds, col);
      TextAt(s, cs, col + 1);
      TextAt(s, ds, col + 1);
      HexReadsBack(cs[i], ds[i]);
    }
  }

  lemma RowFitsMeans(s: nat, cs: seq<Cell>)
    requires RowFits(Cells(s, cs))
    ensures s % 16 + |cs| <= 16 && forall i :: 0 <= i < |cs| ==> !cs[i].Omitted?
  {
    assert forall i :: 0 <= i < |cs| ==> cs[i] in cs;
  }

  lemma TextAt(s: nat, cs: seq<Cell>, col: nat)
    requires col < ASCII + s % 16 + |cs|
    ensures |LineOf(Cells(s, cs)).text| > col && LineOf(Cells(s, cs)).text[col] == RowChar(s, cs, col)
  {
  }

  /** Where the cell of index i of a row appears. */
  lemma Columns(s: nat, cs: seq<Cell>, i: nat)
    requires i < |cs| && s % 16 + i < 16
    ensures var col := HEX + 3 * (s % 16 + i);
      RowChar(s, cs, col) == CellHex(cs[i], false) && RowChar(s, cs, col + 1) == CellHex(cs[i], true)
    ensures RowChar(s, cs, ASCII + s % 16 + i) == CellText(cs[i])
  {
    var col := HEX + 3 * (s % 16 + i);
    assert (col - HEX) / 3 == s % 16 + i && (col - HEX) % 3 == 0;
    assert (col + 1 - HEX) / 3 == s % 16 + i && (col + 1 - HEX) % 3 == 1;
  }

  /** Nothing shown is lost either: the dump determines the visible cells. */
  lemma {:induction false} DumpReadsBack(c: seq<Cell>, d: seq<Cell>, p: nat)
    requires |c| == |d| && p <= |c|
    requires Lines(Pieces(c, p)) == Lines(Pieces(d, p))
    ensures c[p..] == d[p..]
    decreases |c| - p
  {
    hide RowFits, LineOf, RowStops, GapStops;
    if p < |c| {
      DumpAccounts(c, p);
      DumpAccounts(d, p);
      var ps, qs := Pieces(c, p), Pieces(d, p);
      assert Lines(ps)[0] == LineOf(ps[0]) && Lines(qs)[0] == LineOf(qs[0]);
      assert ps[0] in ps && qs[0] in qs;
      SamePiece(ps[0], qs[0], p);
      assert Lines(ps)[1..] == Lines(ps[1..]) && Lines(qs)[1..] == Lines(qs[1..]);
      var n := if c[p].Omitted? then GapEnd(c, p + 1) else RowEnd(c, p + 1);
      var m := if d[p].Omitted? then GapEnd(d, p + 1) else RowEnd(d, p + 1);
      assert n == m;
      assert ps[1..] == Pieces(c, n) && qs[1..] == Pieces(d, n);
      DumpReadsBack(c, d, n);
      assert c[p..] == Expand(ps) && d[p..] == Expand(qs);
    }
  }

  lemma SamePiece(x: Piece, y: Piece, p: nat)
    requires RowFits(x) && RowFits(y) && LineOf(x) == LineOf(y)
    requires (x.Cells? ==> x.start == p) && (y.Cells? ==> y.start == p)
    ensures x == y
  {
    if x.Cells? {
      RowReadsBack(p, x.cells, y.cells);
    }
  }

  /** The dump of a packet of known length reveals exactly its visible cells. */
  lemma DumpIsView(data: seq<byte>, other: seq<byte>, blanks: seq<Area>)
    requires |data| == |other|
    ensures Dump(View(data, blanks)) == Dump(View(other, blanks)) <==> SameShown(data, other, blanks)
  {
    if SameShown(data, other, blanks) {
      DumpHides(data, other, blanks);
    }
    if Dump(View(data, blanks)) == Dump(View(other, blanks)) {
      hide Lines, Pieces;
      var v, w := View(data, blanks), View(other, blanks);
      DumpReadsBack(v, w, 0);
      assert v == v[0..] == w[0..] == w;
      forall p | 0 <= p < |data| && KindAt(blanks, p).EmitBytes? ensures data[p] == other[p] {
        assert v[p] == w[p];
      }
    }
  }

  // ----- the loop

  /** With the areas before b all behind p, only area b can cover p. */
  lemma {:induction false} KindFrom(blanks: seq<Area>, b: nat, p: nat)
    requires InOrder(blanks) && b <= |blanks|
    requires forall i :: 0 <= i < b ==> blanks[i].offset + blanks[i].len <= p
    requires b < |blanks| ==> p < blanks[b].offset + blanks[b].len
    ensures KindAt(blanks, p) == if b < |blanks| && Covers(blanks[b], p) then blanks[b].kind else EmitBytes
  {
    if b > 0 {
      assert !Covers(blanks[0], p);
      KindFrom(blanks[1..], b - 1, p);
    } else if blanks != [] && !Covers(blanks[0], p) {
      NoneCovers(blanks[1..], p);
    }
  }

  lemma {:induction false} NoneCovers(blanks: seq<Area>, p: nat)
    requires forall i :: 0 <= i < |blanks| ==> p < blanks[i].offset
    ensures KindAt(blanks, p) == EmitBytes
  {
    if blanks != [] {
      NoneCovers(blanks[1..], p);
    }
  }

  lemma RowPiece(cells: seq<Cell>, s: nat, q: nat)
    requires s < q <= |cells| && !cells[s].Omitted? && RowStops(cells, q)
    requires forall k :: s < k < q ==> !RowStops(cells, k)
    ensures Lines(Pieces(cells, s)) == [LineOf(Cells(s, cells[s..q]))] + Lines(Pieces(cells, q))
  {
    hide LineOf;
    var end := RowEnd(cells, s + 1);
    assert end == q;
  }

  lemma GapPiece(cells: seq<Cell>, s: nat, q: nat)
    requires s < q <= |cells| && GapStops(cells, q)
    requires forall k :: s <= k < q ==> cells[k].Omitted?
    ensures Lines(Pieces(cells, s)) == [Gap(q - s)] + Lines(Pieces(cells, q))
  {
    var end := GapEnd(cells, s + 1);
    assert end == q;
  }

  /** The row buffer shows the cells cs from byte s on. */
  predicate Holds(dump: array<char>, s: nat, cs: seq<Cell>)
    reads dump
  {
    dump.Length == 128 && forall i :: 0 <= i < WIDTH ==> dump[i] == RowChar(s, cs, i)
  }

  /** sprintf of the row offset, eight digits, and spaces. */
  method StartRow(dump: array<char>, s: nat)
    requires dump.Length == 128 && s < TWO32
    modifies dump
    ensures Holds(dump, s, [])
  {
    var n := s - s % 16;
    forall i | 0 <= i < WIDTH {
      dump[i] := ' ';
    }
    var k: nat := 0;
    while k < 8
      invariant k <= 8
      invariant n == Shifted(s - s % 16, k)
      invariant forall i :: 0 <= i < WIDTH ==> dump[i] == if 10 - k <= i < 10 then RowChar(s, [], i) else ' '
    {
      dump[9 - k] := HexDigit(n % 16);
      n := n / 16;
      k := k + 1;
    }
  }

  /** Put one cell into the row buffer. */
  method PutCell(dump: array<char>, ghost s: nat, ghost cs: seq<Cell>, c: Cell, p: nat)
    requires Holds(dump, s, cs) && p == s + |cs| && s % 16 + |cs| < 16 && !c.Omitted?
    modifies dump
    ensures Holds(dump, s, cs + [c])
  {
    assert p % 16 == s % 16 + |cs|;
    var at := p % 16;
    dump[HEX + 3 * at] := CellHex(c, false);
    dump[HEX + 3 * at + 1] := CellHex(c, true);
    dump[ASCII + at] := CellText(c);
    forall i | 0 <= i < WIDTH ensures dump[i] == RowChar(s, cs + [c], i) {
      MoreCells(s, cs, c, i);
    }
  }

  lemma MoreCells(s: nat, cs: seq<Cell>, c: Cell, i: nat)
    requires s % 16 + |cs| < 16 && i < WIDTH
    ensures var at := s % 16 + |cs|;
      RowChar(s, cs + [c], i) ==
      if i == HEX + 3 * at then CellHex(c, false)
      else if i == HEX + 3 * at + 1 then CellHex(c, true)
      else if i == ASCII + at then CellText(c)
      else RowChar(s, cs, i)
  {
  }

  /** Move to a current entry of the blanking array and see what applies. */
  method AreaAt(blanks: seq<Area>, from: nat, p: nat) returns (b: nat, kind: BlankType)
    requires InOrder(blanks) && from <= |blanks| && Behind(blanks, from, p)
    ensures b <= |blanks| && Behind(blanks, b, p + 1)
    ensures kind == KindAt(blanks, p)
  {
    b := from;
    while b < |blanks| && p >= blanks[b].offset + blanks[b].len
      invariant b <= |blanks| && Behind(blanks, b, p)
    {
      b := b + 1;
    }
    kind := EmitBytes;
    if b < |blanks| && p >= blanks[b].offset && p < blanks[b].offset + blanks[b].len {
      kind := blanks[b].kind;
    }
    KindFrom(blanks, b, p);
  }

  /** The first b areas end at or before p. */
  predicate Behind(blanks: seq<Area>, b: nat, p: nat) {
    forall i :: 0 <= i < b <= |blanks| ==> blanks[i].offset + blanks[i].len <= p
  }

  /** Write out the row in the buffer. */
  method FlushRow(out: seq<Line>, dump: array<char>, outputPos: nat, ghost cells: seq<Cell>, ghost s: nat, ghost q: nat)
      returns (more: seq<Line>)
    requires RowComplete(cells, s, q) && Holds(dump, s, cells[s..q]) && outputPos == s % 16 + (q - s) <= 16
    ensures more + Lines(Pieces(cells, q)) == out + Lines(Pieces(cells, s))
  {
    hide Pieces, Lines, LineOf, Holds;
    RowPiece(cells, s, q);
    LineFrom(dump, s, cells[s..q], outputPos);
    var line := Row(dump[..ASCII + outputPos] + "\r\n");
    Assoc(out, [line], Lines(Pieces(cells, q)));
    more := out + [line];
  }

  method FlushGap(out: seq<Line>, omitted: nat, ghost cells: seq<Cell>, ghost s: nat, ghost q: nat)
      returns (more: seq<Line>)
    requires GapPending(cells, s, q) && q == s + omitted && GapStops(cells, q)
    ensures more + Lines(Pieces(cells, q)) == out + Lines(Pieces(cells, s))
  {
    hide Pieces, Lines;
    GapPiece(cells, s, q);
    Assoc(out, [Gap(omitted)], Lines(Pieces(cells, q)));
    more := out + [Gap(omitted)];
  }

  /** The dump loop of log_packet. */
  method LogDump(data: seq<byte>, blanks: seq<Area>) returns (out: seq<Line>)
    requires InOrder(blanks) && |data| <= TWO32
    ensures out == Dump(View(data, blanks))
  {
    hide Pieces, Lines, Holds, KindAt, RowPending, RowComplete, GapPending, RowStops, InOrder, Behind;
    ghost var cells := View(data, blanks);
    ghost var s: nat := 0;
    var dump := new char[128];
    var p: nat, b: nat, omitted: nat, outputPos: nat := 0, 0, 0, 0;
    out := [];
    assert Behind(blanks, 0, 0) by { NoneBehind(blanks); }
    while p < |data|
      invariant s <= p <= |data| && b <= |blanks|
      invariant dump.Length == 128
      invariant Behind(blanks, b, p)
      invariant omitted > 0 ==> outputPos == 0 && s == p - omitted && GapPending(cells, s, p)
      invariant outputPos > 0 ==> s < p < |data| && RowPending(cells, s, p) && outputPos == p % 16 && Holds(dump, s, cells[s..p])
      invariant omitted == 0 && outputPos == 0 ==> s == p
      invariant out + Lines(Pieces(cells, s)) == Dump(cells)
    {
      var kind;
      b, kind := AreaAt(blanks, b, p);
      assert cells[p] == CellAt(data, blanks, p);
      if kind != OmitBytes && omitted > 0 {
        out := FlushGap(out, omitted, cells, s, p);
        omitted := 0;
        s := p;
      }
      if outputPos == 0 && omitted == 0 {
        StartRow(dump, p);
        assert cells[s..p] == [];
      }
      Pending(cells, s, p, omitted);
      if kind == OmitBytes {
        omitted := omitted + 1;
      } else {
        ghost var cs := cells[s..p];
        PutCell(dump, s, cs, if kind == BlankBytes then Blanked else Shown(data[p]), p);
        assert cs + [cells[p]] == cells[s..p + 1];
        outputPos := p % 16 + 1;
      }
      p := p + 1;
      if p % 16 == 0 || p == |data| || omitted > 0 {
        if outputPos > 0 {
          ghost var q := if omitted > 0 then p - 1 else p;
          out := FlushRow(out, dump, outputPos, cells, s, q);
          outputPos := 0;
          s := q;
        }
      }
    }
    if omitted > 0 {
      out := FlushGap(out, omitted, cells, s, p);
    }
    NothingLeft(cells);
    assert out + [] == out;
  }

  lemma NoneBehind(blanks: seq<Area>)
    ensures Behind(blanks, 0, 0)
  {
  }

  /** A row has been started at s and continues at p. */
  predicate RowPending(cells: seq<Cell>, s: nat, p: nat) {
    && s < p < |cells| && p % 16 != 0
    && !cells[s].Omitted?
    && (forall k :: s < k < p ==> !RowStops(cells, k))
  }

  /** The cells from s to q are one whole row. */
  predicate RowComplete(cells: seq<Cell>, s: nat, q: nat) {
    && s < q <= |cells| && !cells[s].Omitted? && RowStops(cells, q)
    && (forall k :: s < k < q ==> !RowStops(cells, k))
  }

  predicate GapPending(cells: seq<Cell>, s: nat, p: nat) {
    s < p <= |cells| && forall k :: s <= k < p ==> cells[k].Omitted?
  }

  /** What cell p does to what is pending: nothing yet, a gap or a row. */
  lemma Pending(cells: seq<Cell>, s: nat, p: nat, omitted: nat)
    requires p < |cells|
    requires if omitted > 0 then GapPending(cells, s, p) else s == p || RowPending(cells, s, p)
    ensures s <= p
    ensures omitted == 0 ==> s % 16 + (p - s) == p % 16
    ensures cells[p].Omitted? && s < p && omitted == 0 ==> RowComplete(cells, s, p) && GapPending(cells, p, p + 1)
    ensures cells[p].Omitted? && (s == p || omitted > 0) ==> GapPending(cells, s, p + 1)
    ensures !cells[p].Omitted? && omitted == 0 ==>
      if (p + 1) % 16 == 0 || p + 1 == |cells| then RowComplete(cells, s, p + 1) else RowPending(cells, s, p + 1)
  {
    if omitted == 0 && s < p {
      SameRow(cells, s, p);
    }
  }

  lemma LineFrom(dump: array<char>, s: nat, cs: seq<Cell>, outputPos: nat)
    requires Holds(dump, s, cs) && outputPos == s % 16 + |cs| <= 16
    ensures dump.Length == 128 && Row(dump[..ASCII + outputPos] + "\r\n") == LineOf(Cells(s, cs))
  {
    hide RowChar;
    assert dump[..ASCII + outputPos] == RowPrefix(s, cs, ASCII + outputPos);
  }

  lemma NothingLeft(cells: seq<Cell>)
    ensures Lines(Pieces(cells, |cells|)) == []
  {
  }
}
