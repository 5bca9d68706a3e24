/**
 Logging a proxy command's standard error line by line (log_proxy_stderr in
 be_misc.c).

 Bytes arrive in chunks of any size and are collected in a buffer of fixed
 capacity.  The reference is one greedy cut of everything ever received: each
 piece is the shortest that ends in a newline or fills the buffer.
 */
module ProxyStderr {
  import opened Marshal

  const CAPACITY := 8192
  const NL: byte := 10
  const CR: byte := 13

  /** A logged line; a partial line is one cut off because the buffer is full. */
  datatype Message = Message(partial: bool, text: seq<byte>)

  // ----- the reference cut

  predicate NoNewline(s: seq<byte>) {
    forall i :: 0 <= i < |s| ==> s[i] != NL
  }

  /** A piece: it ends at its first newline, or is a full buffer without one. */
  predicate Piece(s: seq<byte>) {
    && 0 < |s| <= CAPACITY
    && NoNewline(s[..|s| - 1])
    && (s[|s| - 1] == NL || |s| == CAPACITY)
  }

  predicate Pieces(ps: seq<seq<byte>>) {
    forall p :: p in ps ==> Piece(p)
  }

  /** What may be left over: neither a newline nor a full buffer. */
  predicate Leftover(s: seq<byte>) {
    |s| < CAPACITY && NoNewline(s)
  }

  function Concat(ps: seq<seq<byte>>): seq<byte> {
    if ps == [] then [] else Concat(ps[..|ps| - 1]) + ps[|ps| - 1]
  }

  /** The length of the piece that s starts with; 0 when s is only a leftover. */
  function FirstPiece(s: seq<byte>): (n: nat)
    ensures n <= |s|
    ensures n > 0 ==> Piece(s[..n])
    ensures n == 0 ==> Leftover(s)
  {
    var k := Newline(s, 0);
    if k < |s| && k < CAPACITY then
      assert s[..k + 1][..k] == s[..k];
      k + 1
    else if |s| >= CAPACITY then
      assert s[..CAPACITY][..CAPACITY - 1] == s[..k][..CAPACITY - 1];
      CAPACITY
    else 0
  }

  /** The first newline at or after i, or the end (memchr). */
  function Newline(s: seq<byte>, i: nat): (k: nat)
    requires i <= |s|
    ensures i <= k <= |s| && NoNewline(s[i..k]) && (k < |s| ==> s[k] == NL)
    decreases |s| - i
  {
    if i == |s| || s[i] == NL then i
    else
      var k := Newline(s, i + 1);
      assert s[i..k] == [s[i]] + s[i + 1..k];
      k
  }

  function Cut(s: seq<byte>): (ps: seq<seq<byte>>)
    decreases |s|
  {
    var n := FirstPiece(s);
    if n == 0 then [] else [s[..n]] + Cut(s[n..])
  }

  function Rest(s: seq<byte>): (rest: seq<byte>)
    ensures Leftover(rest)
    decreases |s|
  {
    var n := FirstPiece(s);
    if n == 0 then s else Rest(s[n..])
  }

  /** Cutting loses nothing. */
  lemma {:induction false} CutCovers(s: seq<byte>)
    ensures Concat(Cut(s)) + Rest(s) == s && Pieces(Cut(s))
    decreases |s|
  {
    hide Piece, NoNewline;
    var n := FirstPiece(s);
    if n > 0 {
      CutCovers(s[n..]);
      ConcatFront(s[..n], Cut(s[n..]));
    }
  }

  lemma {:induction false} ConcatFront(p: seq<byte>, ps: seq<seq<byte>>)
    ensures Concat([p] + ps) == p + Concat(ps)
  {
    if ps == [] {
      assert [p] + ps == [p] && [p][..0] == [];
    } else {
      var n := |ps| - 1;
      ConcatFront(p, ps[..n]);
      assert ([p] + ps)[..|ps|] == [p] + ps[..n];
    }
  }

  /** No piece is a proper prefix of anything that starts with another piece. */
  lemma PieceIsFirst(p: seq<byte>, more: seq<byte>)
    requires Piece(p)
    ensures FirstPiece(p + more) == |p|
  {
    var s := p + more;
    var n := FirstPiece(s);
    assert s[|p| - 1] == p[|p| - 1];
    assert 0 < n < |p| ==> s[n - 1] == p[n - 1];
  }

  /** The greedy cut is the only way to cut: any pieces and leftover that make
      up s are its cut. */
  lemma {:induction false} CutUnique(s: seq<byte>, ps: seq<seq<byte>>, rest: seq<byte>)
    requires Pieces(ps) && Leftover(rest) && Concat(ps) + rest == s
    ensures Cut(s) == ps && Rest(s) == rest
    decreases |ps|
  {
    if ps == [] {
      assert s == rest;
      LeftoverHasNone(rest);
    } else {
      var p, qs := ps[0], ps[1..];
      assert ps == [p] + qs;
      ConcatFront(p, qs);
      Assoc(p, Concat(qs), rest);
      PieceIsFirst(p, Concat(qs) + rest);
      assert s[|p|..] == Concat(qs) + rest && s[..|p|] == p;
      CutUnique(s[|p|..], qs, rest);
    }
  }

  lemma LeftoverHasNone(s: seq<byte>)
    requires Leftover(s)
    ensures FirstPiece(s) == 0
  {
    var n := FirstPiece(s);
  }

  // ----- how a piece is logged

  /** s without the carriage returns and newlines it ends in. */
  function Stripped(s: seq<byte>): (t: seq<byte>)
    ensures t <= s
  {
    if s != [] && (s[|s| - 1] == NL || s[|s| - 1] == CR) then Stripped(s[..|s| - 1]) else s
  }

  /** What %.*s prints: the bytes before the first zero byte. */
  function Printed(s: seq<byte>): seq<byte> {
    s[..BeforeNul(s)]
  }

  function Render(p: seq<byte>): Message
    requires Piece(p)
  {
    if p[|p| - 1] == NL then Message(false, Printed(Stripped(p[..|p| - 1]))) else Message(true, Printed(p))
  }

  /** t is s without all the line ends at its end. */
  predicate IsTrimmed(s: seq<byte>, t: seq<byte>) {
    && t <= s
    && (forall i :: |t| <= i < |s| ==> s[i] == 10 || s[i] == 13)
    && (t != [] ==> t[|t| - 1] != 10 && t[|t| - 1] != 13)
  }

  /** t is s up to its first zero byte. */
  predicate IsPrinted(s: seq<byte>, t: seq<byte>) {
    t <= s && 0 !in t && (|t| < |s| ==> s[|t|] == 0)
  }

  lemma {:induction false} StrippedIs(s: seq<byte>)
    ensures IsTrimmed(s, Stripped(s))
  {
    if s != [] && (s[|s| - 1] == NL || s[|s| - 1] == CR) {
      StrippedIs(s[..|s| - 1]);
    }
  }

  lemma PrintedIs(s: seq<byte>)
    ensures IsPrinted(s, Printed(s))
  {
    var t := Printed(s);
    assert forall i :: 0 <= i < |t| ==> t[i] == s[i];
  }

  /** A piece with a newline is logged without its line ends, one without, which fills
      the 8192 bytes of the buffer, as it is and marked as partial; either up to its
      first zero byte. */
  lemma RenderInWords(p: seq<byte>) returns (line: seq<byte>)
    requires Piece(p)
    ensures var m := Render(p);
      && (m.partial <==> 10 !in p)
      && (if m.partial then line == p && |p| == 8192 else IsTrimmed(p, line))
      && IsPrinted(line, m.text)
  {
    if p[|p| - 1] == NL {
      line := Stripped(p[..|p| - 1]);
      StrippedIs(p[..|p| - 1]);
    } else {
      line := p;
    }
    PrintedIs(line);
    hide Stripped, Printed;
  }

  lemma {:induction false} RenderedAt(ps: seq<seq<byte>>, i: nat)
    requires Pieces(ps) && i < |ps|
    ensures |Rendered(ps)| == |ps| && Rendered(ps)[i] == Render(ps[i])
  {
    hide Piece, Render;
    var n := |ps| - 1;
    if i < n {
      RenderedAt(ps[..n], i);
    } else if n > 0 {
      RenderedAt(ps[..n], 0);
    }
  }

  function Rendered(ps: seq<seq<byte>>): seq<Message>
    requires Pieces(ps)
  {
    if ps == [] then [] else Rendered(ps[..|ps| - 1]) + [Render(ps[|ps| - 1])]
  }

  /** Everything logged about the bytes s. */
  function Logged(s: seq<byte>): seq<Message> {
    CutCovers(s);
    Rendered(Cut(s))
  }

  /** Feeding a then b logs what feeding a + b logs, and leaves the same bytes:
      the messages of a come first, and the rest is the log of what was left over
      followed by b. */
  lemma ChunkIndependent(a: seq<byte>, b: seq<byte>)
    ensures Logged(a + b) == Logged(a) + Logged(Rest(a) + b)
    ensures Rest(a + b) == Rest(Rest(a) + b)
  {
    hide Piece, Leftover;
    CutCovers(a);
    var c := Rest(a) + b;
    CutCovers(c);
    ConcatAppend(Cut(a), Cut(c));
    Assoc(Concat(Cut(a)), Rest(a), b);
    Assoc(Concat(Cut(a)), Concat(Cut(c)), Rest(c));
    assert forall p :: p in Cut(a) + Cut(c) ==> p in Cut(a) || p in Cut(c);
    CutUnique(a + b, Cut(a) + Cut(c), Rest(c));
    RenderedAppend(Cut(a), Cut(c));
  }

  lemma {:induction false} ConcatAppend(ps: seq<seq<byte>>, qs: seq<seq<byte>>)
    ensures Concat(ps + qs) == Concat(ps) + Concat(qs)
  {
    if qs == [] {
      assert ps + qs == ps;
    } else {
      var n := |qs| - 1;
      ConcatAppend(ps, qs[..n]);
      assert (ps + qs)[..|ps| + n] == ps + qs[..n];
    }
  }

  lemma {:induction false} RenderedAppend(ps: seq<seq<byte>>, qs: seq<seq<byte>>)
    requires Pieces(ps) && Pieces(qs)
    ensures Pieces(ps + qs) && Rendered(ps + qs) == Rendered(ps) + Rendered(qs)
  {
    hide Piece, Render;
    assert forall p :: p in ps + qs ==> p in ps || p in qs;
    if qs == [] {
      assert ps + qs == ps;
    } else {
      var n := |qs| - 1;
      RenderedAppend(ps, qs[..n]);
      assert (ps + qs)[..|ps| + n] == ps + qs[..n];
    }
  }

  // ----- the buffer

  /** The log and the leftover that belong to the bytes fed. */
  ghost predicate Tracks(fed: seq<byte>, log: seq<Message>, rest: seq<byte>) {
    log == Logged(fed) && rest == Rest(fed)
  }

  class ProxyStderrBuf {
    const buf: array<byte>
    var size: nat
    var log: seq<Message>
    ghost var fed: seq<byte>

    constructor ()
      ensures Valid() && fresh(buf) && fed == [] && log == []
    {
      buf := new byte[CAPACITY];
      size := 0;
      log := [];
      fed := [];
    }

    /** The log and the buffer depend only on the bytes fed so far. */
    ghost predicate Valid()
      reads this, buf
    {
      && buf.Length == CAPACITY
      && size < CAPACITY
      && Tracks(fed, log, buf[..size])
    }

    /** The line ending at `end` and starting at `pos`, without its line ends. */
    method TrimmedEnd(pos: nat, nlpos: nat) returns (end: nat)
      requires pos <= nlpos <= buf.Length
      ensures pos <= end <= nlpos && buf[pos..end] == Stripped(buf[pos..nlpos])
    {
      end := nlpos;
      while end > pos && (buf[end - 1] == NL || buf[end - 1] == CR)
        invariant pos <= end <= nlpos
        invariant Stripped(buf[pos..nlpos]) == Stripped(buf[pos..end])
      {
        assert buf[pos..end][..end - 1 - pos] == buf[pos..end - 1];
        end := end - 1;
      }
    }

    /** memchr for a newline in buf[pos..size]. */
    method FindNewline(pos: nat) returns (nlpos: nat)
      requires pos <= size <= buf.Length
      ensures pos <= nlpos <= size && NoNewline(buf[pos..nlpos]) && (nlpos < size ==> buf[nlpos] == NL)
    {
      nlpos := pos;
      while nlpos < size && buf[nlpos] != NL
        invariant pos <= nlpos <= size && NoNewline(buf[pos..nlpos])
      {
        nlpos := nlpos + 1;
      }
    }

    /** Output the full lines in the buffer. */
    method OutputLines(ghost before: seq<byte>) returns (pos: nat)
      requires size <= buf.Length == CAPACITY
      requires Tracks(before, log, [])
      modifies this`log
      ensures pos <= size && NoNewline(buf[pos..size])
      ensures Tracks(before + buf[..pos], log, [])
      ensures pos == 0 ==> log == old(log)
    {
      hide Tracks, Stripped, Printed;
      pos := 0;
      assert before + buf[..0] == before;
      while pos < size
        invariant pos <= size
        invariant Tracks(before + buf[..pos], log, [])
        invariant pos == 0 ==> log == old(log)
      {
        var nlpos := FindNewline(pos);
        if nlpos == size {
          return;
        }
        var end := TrimmedEnd(pos, nlpos);
        ghost var p := buf[pos..nlpos + 1];
        assert p[..|p| - 1] == buf[pos..nlpos];
        AddPiece(before + buf[..pos], log, p);
        log := log + [Message(false, Printed(buf[pos..end]))];
        assert before + buf[..pos] + p == before + buf[..nlpos + 1];
        pos := nlpos + 1;
      }
    }

    /** log_proxy_stderr. */
    method Feed(data: seq<byte>)
      requires Valid()
      modifies this, buf
      ensures Valid() && fed == old(fed) + data
    {
      hide Tracks;
      var done: nat := 0;
      assert data[..0] == [];
      while done < |data|
        invariant done <= |data| && fed == old(fed) + data[..done]
        invariant Valid()
        decreases |data| - done
      {
        var n := CAPACITY - size;
        if n > |data| - done {
          n := |data| - done;
        }
        assert data[..done] + data[done..done + n] == data[..done + n];
        FeedPart(data[done..done + n]);
        done := done + n;
      }
      assert data[..|data|] == data;
    }

    /** memcpy of the part after what the buffer holds. */
    method CopyIn(part: seq<byte>)
      requires size + |part| <= buf.Length
      modifies this`size, buf
      ensures size == old(size) + |part| && buf[..size] == old(buf[..size]) + part
    {
      forall i | 0 <= i < |part| {
        buf[size + i] := part[i];
      }
      size := size + |part|;
    }

    /** memmove of what follows pos to the front. */
    method MoveDown(pos: nat)
      requires pos <= size <= buf.Length
      modifies this`size, buf
      ensures size == old(size) - pos && buf[..size] == old(buf[pos..size])
    {
      var newsize := size - pos;
      forall i | 0 <= i < newsize {
        buf[i] := buf[pos + i];
      }
      size := newsize;
    }

    /** One turn of the outer loop: the part fits in the buffer. */
    method FeedPart(part: seq<byte>)
      requires Valid() && size + |part| <= CAPACITY
      modifies this, buf
      ensures Valid() && fed == old(fed) + part
    {
      hide Tracks, Stripped, Printed, Piece;
      ghost var before := Settled(fed, log, buf[..size]);
      CopyIn(part);
      fed := fed + part;
      ghost var held := buf[..size];
      assert fed == before + held;
      var pos := OutputLines(before);
      if pos == 0 && size == CAPACITY {
        FullPiece(held);
        assert buf[0..size] == held && before + buf[..0] == before;
        AddPiece(before, log, held);
        log := log + [Message(true, Printed(buf[..size]))];
        pos, size := 0, 0;
        before := before + held;
      } else {
        assert held[..pos] == buf[..pos];
        assert before + held[..pos] + buf[pos..size] == fed;
        before := before + held[..pos];
      }
      ghost var rest := buf[pos..size];
      MoveDown(pos);
      LeaveRest(before, log, rest);
      assert before + rest == fed;
    }
  }

  lemma FullPiece(s: seq<byte>)
    requires |s| == CAPACITY && NoNewline(s)
    ensures Piece(s) && s[|s| - 1] != NL && Render(s) == Message(true, Printed(s))
  {
  }

  /** Everything but the leftover has been logged. */
  lemma Settled(s: seq<byte>, log: seq<Message>, rest: seq<byte>) returns (t: seq<byte>)
    requires Tracks(s, log, rest)
    ensures t + rest == s && Tracks(t, log, []) && Leftover(rest)
  {
    CutCovers(s);
    t := Concat(Cut(s));
    assert t + [] == t;
    CutUnique(t, Cut(s), []);
  }

  lemma AddPiece(s: seq<byte>, log: seq<Message>, p: seq<byte>)
    requires Tracks(s, log, []) && Piece(p)
    ensures Tracks(s + p, log + [Render(p)], [])
  {
    CutCovers(s);
    var ps := Cut(s) + [p];
    assert ps[..|ps| - 1] == Cut(s);
    assert Concat(ps) + [] == s + p;
    CutUnique(s + p, ps, []);
  }

  lemma LeaveRest(s: seq<byte>, log: seq<Message>, rest: seq<byte>)
    requires Tracks(s, log, []) && Leftover(rest)
    ensures Tracks(s + rest, log, rest)
  {
    CutCovers(s);
    assert Concat(Cut(s)) + [] == s;
    CutUnique(s + rest, Cut(s), rest);
  }
}
