/**
 The binary sink and source (SSH wire types of section 5 of RFC 4251).

 `Source` is the value of a reader: the bytes not yet consumed and the sticky
 error.  The class `BinarySource` is the reader the program updates in place;
 each of its methods is proved to take one value to the next.  `StrBuf` is a
 sink that collects what is written.
 */
module Marshal {

  type byte = b: int | 0 <= b < 256

  const TWO32 := 0x1_0000_0000
  const TWO31 := 0x8000_0000

  type uint32 = n: int | 0 <= n < TWO32
  type int32 = n: int | -TWO31 <= n < TWO31

  datatype Source = Source(rest: seq<byte>, err: bool)

  // ----- integers as bytes

  /** The four bytes of v, most significant first; a negative int is written as
      its value modulo 2^32. */
  function U32(v: int): (s: seq<byte>)
    ensures |s| == 4
  {
    var w := v % TWO32;
    [w / 0x100_0000, w / 0x1_0000 % 256, w / 256 % 256, w % 256]
  }

  function FromU32(s: seq<byte>): (v: uint32)
    requires |s| == 4
  {
    var a: int, b: int, c: int, d: int := s[0], s[1], s[2], s[3];
    a * 0x100_0000 + b * 0x1_0000 + c * 256 + d
  }

  lemma U32RoundTrip(v: int)
    ensures FromU32(U32(v)) == v % TWO32
  {
    var w := v % TWO32;
    assert w == w / 256 * 256 + w % 256;
    assert w / 256 == w / 256 / 256 * 256 + w / 256 % 256;
    assert w / 256 / 256 == w / 0x1_0000;
    assert w / 0x1_0000 == w / 0x1_0000 / 256 * 256 + w / 0x1_0000 % 256;
    assert w / 0x1_0000 / 256 == w / 0x100_0000;
  }

  /** toint: the signed value of an unsigned one. */
  function ToInt(u: uint32): (i: int32)
    ensures i % TWO32 == u
  {
    if u < TWO31 then u else u - TWO32
  }

  lemma ToIntOfWord(i: int32)
    ensures ToInt(i % TWO32) == i
  {
  }

  // ----- reading, as functions on the reader's value

  function Avail(s: Source, wanted: nat): bool {
    !s.err && wanted <= |s.rest|
  }

  function TakeData(s: Source, wanted: nat): (Source, seq<byte>) {
    if Avail(s, wanted) then (Source(s.rest[wanted..], false), s.rest[..wanted]) else (s.(err := true), [])
  }

  function TakeByte(s: Source): (Source, byte) {
    if Avail(s, 1) then (Source(s.rest[1..], false), s.rest[0]) else (s.(err := true), 0)
  }

  function TakeBool(s: Source): (Source, bool) {
    if Avail(s, 1) then (Source(s.rest[1..], false), s.rest[0] != 0) else (s.(err := true), false)
  }

  function TakeUint32(s: Source): (Source, uint32) {
    if Avail(s, 4) then (Source(s.rest[4..], false), FromU32(s.rest[..4])) else (s.(err := true), 0)
  }

  function TakeString(s: Source): (Source, seq<byte>) {
    if !Avail(s, 4) then (s.(err := true), []) else
      TakeData(Source(s.rest[4..], false), FromU32(s.rest[..4]))
  }

  /** The bytes before the first zero byte, if there is one. */
  function BeforeNul(s: seq<byte>): (n: nat)
    ensures n <= |s| && (forall i :: 0 <= i < n ==> s[i] != 0) && (n < |s| ==> s[n] == 0)
  {
    if s == [] || s[0] == 0 then 0 else 1 + BeforeNul(s[1..])
  }

  function TakeAsciz(s: Source): (Source, seq<byte>) {
    if s.err then (s, []) else
      var n := BeforeNul(s.rest);
      if n == |s.rest| then (s.(err := true), []) else (Source(s.rest[n + 1..], false), s.rest[..n])
  }

  // ----- writing

  predicate NulFree(s: seq<byte>) {
    0 !in s
  }

  function StringBytes(s: seq<byte>): (out: seq<byte>) {
    U32(|s|) + s
  }

  function AscizBytes(s: seq<byte>): (out: seq<byte>) {
    s + [0]
  }

  function BoolBytes(b: bool): seq<byte> {
    [if b then 1 else 0]
  }

  function Repeat(b: byte, n: nat): (s: seq<byte>)
    ensures |s| == n && forall i :: 0 <= i < n ==> s[i] == b
  {
    seq(n, _ => b)
  }

  // ----- each reader undoes its writer and stops at the tail

  lemma TakeUint32Put(v: int, tail: seq<byte>)
    ensures TakeUint32(Source(U32(v) + tail, false)) == (Source(tail, false), v % TWO32)
  {
    U32RoundTrip(v);
    assert (U32(v) + tail)[..4] == U32(v);
    assert (U32(v) + tail)[4..] == tail;
  }

  lemma TakeDataPut(s: seq<byte>, tail: seq<byte>)
    ensures TakeData(Source(s + tail, false), |s|) == (Source(tail, false), s)
  {
    assert (s + tail)[|s|..] == tail && (s + tail)[..|s|] == s;
  }

  lemma TakeStringPut(s: seq<byte>, tail: seq<byte>)
    requires |s| < TWO32
    ensures TakeString(Source(StringBytes(s) + tail, false)) == (Source(tail, false), s)
  {
    hide U32, FromU32;
    assert StringBytes(s) + tail == U32(|s|) + (s + tail);
    TakeUint32Put(|s|, s + tail);
    TakeDataPut(s, tail);
  }

  lemma {:induction false} BeforeNulAppend(s: seq<byte>, tail: seq<byte>)
    requires NulFree(s)
    ensures BeforeNul(s + [0] + tail) == |s|
  {
    if s != [] {
      assert (s + [0] + tail)[1..] == s[1..] + [0] + tail;
      assert (s + [0] + tail)[0] == s[0];
      BeforeNulAppend(s[1..], tail);
    }
  }

  lemma TakeAscizPut(s: seq<byte>, tail: seq<byte>)
    requires NulFree(s)
    ensures TakeAsciz(Source(AscizBytes(s) + tail, false)) == (Source(tail, false), s)
  {
    var t := AscizBytes(s) + tail;
    BeforeNulAppend(s, tail);
    assert t[|s| + 1..] == tail && t[..|s|] == s;
  }

  // ----- the reader the program updates

  class BinarySource {
    const data: seq<byte>
    var pos: nat
    var err: bool

    constructor (data: seq<byte>)
      ensures Valid() && this.data == data && Value() == Source(data, false)
    {
      this.data := data;
      pos := 0;
      err := false;
    }

    predicate Valid()
      reads this
    {
      pos <= |data|
    }

    function Value(): Source
      requires Valid()
      reads this
    {
      Source(data[pos..], err)
    }

    /** BinarySource_data_avail: an error sticks. */
    method DataAvail(wanted: nat) returns (ok: bool)
      requires Valid()
      modifies this
      ensures Valid() && pos == old(pos)
      ensures ok == old(Avail(Value(), wanted))
      ensures err == (old(err) || !ok)
    {
      if err {
        return false;
      }
      if wanted <= |data| - pos {
        return true;
      }
      err := true;
      ok := false;
    }

    method GetData(wanted: nat) returns (r: seq<byte>)
      requires Valid()
      modifies this
      ensures Valid() && (Value(), r) == old(TakeData(Value(), wanted))
    {
      var ok := DataAvail(wanted);
      if !ok {
        return [];
      }
      SliceOfRest(data, pos, wanted);
      r := data[pos..pos + wanted];
      pos := pos + wanted;
    }

    method GetByte() returns (r: byte)
      requires Valid()
      modifies this
      ensures Valid() && (Value(), r) == old(TakeByte(Value()))
    {
      var ok := DataAvail(1);
      if !ok {
        return 0;
      }
      r := data[pos];
      pos := pos + 1;
    }

    method GetBool() returns (r: bool)
      requires Valid()
      modifies this
      ensures Valid() && (Value(), r) == old(TakeBool(Value()))
    {
      var ok := DataAvail(1);
      if !ok {
        return false;
      }
      r := data[pos] != 0;
      pos := pos + 1;
    }

    method GetUint32() returns (r: uint32)
      requires Valid()
      modifies this
      ensures Valid() && (Value(), r) == old(TakeUint32(Value()))
    {
      var ok := DataAvail(4);
      if !ok {
        return 0;
      }
      SliceOfRest(data, pos, 4);
      r := FromU32(data[pos..pos + 4]);
      pos := pos + 4;
    }

    method GetString() returns (r: seq<byte>)
      requires Valid()
      modifies this
      ensures Valid() && (Value(), r) == old(TakeString(Value()))
    {
      var ok := DataAvail(4);
      if !ok {
        return [];
      }
      SliceOfRest(data, pos, 4);
      var len := FromU32(data[pos..pos + 4]);
      pos := pos + 4;
      ok := DataAvail(len);
      if !ok {
        return [];
      }
      SliceOfRest(data, pos, len);
      r := data[pos..pos + len];
      pos := pos + len;
    }

    method GetAsciz() returns (r: seq<byte>)
      requires Valid()
      modifies this
      ensures Valid() && (Value(), r) == old(TakeAsciz(Value()))
    {
      if err {
        return [];
      }
      var n := BeforeNul(data[pos..]);
      if n == |data| - pos {
        err := true;
        return [];
      }
      SliceOfRest(data, pos, n);
      SliceOfRest(data, pos, n + 1);
      r := data[pos..pos + n];
      pos := pos + n + 1;
    }
  }

  lemma Assoc<T>(a: seq<T>, b: seq<T>, c: seq<T>)
    ensures a + b + c == a + (b + c)
  {
  }

  lemma SliceOfRest<T>(s: seq<T>, i: nat, n: nat)
    requires i + n <= |s|
    ensures s[i..][..n] == s[i..i + n] && s[i..][n..] == s[i + n..]
  {
  }

  /** A strbuf: the sink that collects what is written to it. */
  class StrBuf {
    var contents: seq<byte>

    constructor ()
      ensures contents == []
    {
      contents := [];
    }

    method PutData(data: seq<byte>)
      modifies this
      ensures contents == old(contents) + data
    {
      contents := contents + data;
    }

    method PutByte(b: byte)
      modifies this
      ensures contents == old(contents) + [b]
    {
      contents := contents + [b];
    }

    /** put_padding writes through a buffer of sixteen pad bytes. */
    method PutPadding(len: nat, padbyte: byte)
      modifies this
      ensures contents == old(contents) + Repeat(padbyte, len)
    {
      var buf := Repeat(padbyte, 16);
      var left: nat := len;
      while left > 0
        invariant left <= len
        invariant contents == old(contents) + Repeat(padbyte, len - left)
      {
        var thislen := if left < 16 then left else 16;
        assert Repeat(padbyte, len - left) + buf[..thislen] == Repeat(padbyte, len - (left - thislen));
        contents := contents + buf[..thislen];
        left := left - thislen;
      }
    }

    method PutUint32(v: int)
      modifies this
      ensures contents == old(contents) + U32(v)
    {
      contents := contents + U32(v);
    }

    method PutString(data: seq<byte>)
      requires |data| < TWO32
      modifies this
      ensures contents == old(contents) + StringBytes(data)
    {
      PutUint32(|data|);
      PutData(data);
    }

    /** PUT_32BIT_MSB_FIRST into the buffer: overwrite four bytes in place. */
    method Patch32(at: nat, v: int)
      requires at + 4 <= |contents|
      modifies this
      ensures contents == old(contents)[..at] + U32(v) + old(contents)[at + 4..]
    {
      contents := contents[..at] + U32(v) + contents[at + 4..];
    }
  }
}
