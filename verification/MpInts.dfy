/**
 Big integers as strings of big-endian bytes: the SSH-2 mpint (section 5 of
 RFC 4251) and the ssh.com form with an explicit bit count.
 */
module MpInts {
  import opened Marshal

  // ----- values

  function Pow256(n: nat): (p: nat)
    ensures p >= 1
  {
    if n == 0 then 1 else 256 * Pow256(n - 1)
  }

  /** The number that big-endian bytes denote. */
  function BigEndian(s: seq<byte>): nat {
    if s == [] then 0 else BigEndian(s[..|s| - 1]) * 256 + s[|s| - 1]
  }

  lemma {:induction false} BigEndianLead(s: seq<byte>)
    requires s != []
    ensures BigEndian(s) == s[0] * Pow256(|s| - 1) + BigEndian(s[1..])
  {
    if |s| == 1 {
      assert s[..0] == [] && s[1..] == [];
    } else {
      var t := s[..|s| - 1];
      BigEndianLead(t);
      assert t[1..] == s[1..][..|s| - 2];
      var a: nat := s[0];
      assert a * (256 * Pow256(|s| - 2)) == 256 * (a * Pow256(|s| - 2));
    }
  }

  lemma {:induction false} BigEndianBound(s: seq<byte>)
    ensures BigEndian(s) < Pow256(|s|)
  {
    if s != [] {
      BigEndianBound(s[..|s| - 1]);
    }
  }

  lemma FourBytes(s: seq<byte>)
    requires |s| == 4
    ensures var a: int, b: int, c: int, d: int := s[0], s[1], s[2], s[3];
      BigEndian(s) == ((a * 256 + b) * 256 + c) * 256 + d
  {
    assert s[..3][..2] == s[..2] && s[..2][..1] == s[..1] && s[..1][..0] == [];
    assert BigEndian(s[..1]) == s[0];
    assert BigEndian(s[..2]) == BigEndian(s[..1]) * 256 + s[1];
    assert BigEndian(s[..3]) == BigEndian(s[..2]) * 256 + s[2];
  }

  /** The wire's words are big-endian: four bytes stand for the number they denote,
      and a number is written as the bytes that denote it modulo 2^32. */
  lemma WordsAreBigEndian(v: int, s: seq<byte>)
    requires |s| == 4
    ensures BigEndian(U32(v)) == v % 0x1_0000_0000
    ensures FromU32(s) == BigEndian(s)
  {
    FourBytes(s);
    FourBytes(U32(v));
    U32RoundTrip(v);
  }

  // ----- mpints

  /** The content of a non-negative mpint: no leading zero byte except the one
      that keeps the sign bit clear. */
  predicate Canonical(s: seq<byte>) {
    s != [] ==> s[0] < 128 && (s[0] == 0 ==> |s| > 1 && s[1] >= 128)
  }

  function Strip(s: seq<byte>): (t: seq<byte>)
    ensures |t| <= |s| && (t != [] ==> t[0] != 0)
  {
    if s != [] && s[0] == 0 then Strip(s[1..]) else s
  }

  /** What put_mp_ssh2_from_string writes after the length field. */
  function MpContent(s: seq<byte>): seq<byte> {
    var t := Strip(s);
    if t != [] && t[0] >= 128 then [0] + t else t
  }

  lemma {:induction false} StripValue(s: seq<byte>)
    ensures BigEndian(Strip(s)) == BigEndian(s)
  {
    if s != [] && s[0] == 0 {
      BigEndianLead(s);
      StripValue(s[1..]);
    }
  }

  /** The mpint written has the value of the bytes given, and is canonical. */
  lemma MpContentMeaning(s: seq<byte>)
    ensures BigEndian(MpContent(s)) == BigEndian(s) && Canonical(MpContent(s))
  {
    StripValue(s);
    var t := Strip(s);
    if t != [] && t[0] >= 128 {
      BigEndianLead([0] + t);
      assert ([0] + t)[1..] == t;
    }
  }

  /** Writing a canonical mpint's content again changes nothing. */
  lemma MpContentOfCanonical(s: seq<byte>)
    requires Canonical(s)
    ensures MpContent(s) == s
  {
    if s != [] && s[0] == 0 {
      assert Strip(s[1..]) == s[1..];
      assert [0] + s[1..] == s;
    }
  }

  /** The canonical content of a value is unique. */
  lemma {:induction false} CanonicalUnique(s: seq<byte>, t: seq<byte>)
    requires Canonical(s) && Canonical(t) && BigEndian(s) == BigEndian(t)
    ensures s == t
  {
    StripValue(s);
    StripValue(t);
    StrippedUnique(Strip(s), Strip(t));
    MpContentOfCanonical(s);
    MpContentOfCanonical(t);
  }

  lemma {:induction false} StrippedUnique(s: seq<byte>, t: seq<byte>)
    requires (s != [] ==> s[0] != 0) && (t != [] ==> t[0] != 0) && BigEndian(s) == BigEndian(t)
    ensures s == t
  {
    if s == [] || t == [] {
      StrippedPositive(s);
      StrippedPositive(t);
    } else {
      var s', t' := s[..|s| - 1], t[..|t| - 1];
      assert BigEndian(s') == BigEndian(t') && s[|s| - 1] == t[|t| - 1];
      StrippedUnique(s', t');
      assert s == s' + [s[|s| - 1]] && t == t' + [t[|t| - 1]];
    }
  }

  lemma {:induction false} StrippedPositive(s: seq<byte>)
    requires s != [] ==> s[0] != 0
    ensures BigEndian(s) == 0 <==> s == []
  {
    if |s| > 1 {
      StrippedPositive(s[..|s| - 1]);
    }
  }

  /** BinarySink_put_mp_ssh2_from_string */
  method PutMpSsh2FromString(bs: StrBuf, str: seq<byte>)
    modifies bs
    ensures bs.contents == old(bs.contents) + StringBytes(MpContent(str))
  {
    hide U32;
    var bytes, nbytes := 0, |str|;
    while nbytes > 0 && str[bytes] == 0
      invariant 0 <= nbytes && bytes + nbytes == |str|
      invariant Strip(str) == Strip(str[bytes..])
    {
      assert str[bytes..][1..] == str[bytes + 1..];
      nbytes := nbytes - 1;
      bytes := bytes + 1;
    }
    ghost var before, t := bs.contents, str[bytes..];
    assert Strip(str) == t;
    if nbytes > 0 && str[bytes] >= 128 {
      bs.PutUint32(nbytes + 1);
      bs.PutByte(0);
      bs.PutData(str[bytes..]);
      Assoc(before + U32(nbytes + 1), [0], t);
      Assoc(before, U32(nbytes + 1), [0] + t);
    } else {
      bs.PutUint32(nbytes);
      bs.PutData(str[bytes..]);
      Assoc(before, U32(nbytes), t);
    }
  }

  // ----- the ssh.com form

  /** The number of bits of a byte, at least one. */
  function BitCount(b: byte): (n: nat)
    ensures 1 <= n <= 8
  {
    if b < 2 then 1 else if b < 4 then 2 else if b < 8 then 3 else if b < 16 then 4
    else if b < 32 then 5 else if b < 64 then 6 else if b < 128 then 7 else 8
  }

  /** The bytes put_mp_sshcom_from_string writes: no leading zero byte, but at
      least one byte of a nonempty string. */
  function SshcomBytes(s: seq<byte>): (t: seq<byte>)
    ensures |t| <= |s| && (t == [] <==> s == [])
  {
    if |s| > 1 && s[0] == 0 then SshcomBytes(s[1..]) else s
  }

  function SshcomBits(s: seq<byte>): nat {
    var t := SshcomBytes(s);
    if t == [] then 0 else 8 * (|t| - 1) + BitCount(t[0])
  }

  /** The value is kept, and the bit count always gives back the number of bytes. */
  lemma {:induction false} SshcomMeaning(s: seq<byte>)
    ensures BigEndian(SshcomBytes(s)) == BigEndian(s)
    ensures (SshcomBits(s) + 7) / 8 == |SshcomBytes(s)| && SshcomBits(s) <= 8 * |SshcomBytes(s)|
    ensures MpContent(SshcomBytes(s)) == MpContent(s)
  {
    if |s| > 1 && s[0] == 0 {
      BigEndianLead(s);
      SshcomMeaning(s[1..]);
    }
  }

  predicate BitSet(b: byte, i: nat)
    requires i < 8
  {
    b / [1, 2, 4, 8, 16, 32, 64, 128][i] % 2 == 1
  }

  /** BinarySink_put_mp_sshcom_from_string */
  method PutMpSshcomFromString(bs: StrBuf, str: seq<byte>)
    requires |str| < 0x1000_0000
    modifies bs
    ensures bs.contents == old(bs.contents) + U32(SshcomBits(str)) + SshcomBytes(str)
  {
    hide U32;
    var bytes, nbytes := 0, |str|;
    var bits := nbytes * 8 - 1;
    while bits > 0
      invariant bs.contents == old(bs.contents)
      invariant 0 <= bytes && bytes + nbytes == |str|
      invariant str == [] ==> bits == -1 && nbytes == 0
      invariant str != [] ==> bits >= 0 && nbytes == bits / 8 + 1
      invariant str != [] ==> SshcomBytes(str) == SshcomBytes(str[bytes..])
      invariant str != [] ==> BitCount(str[bytes]) <= bits % 8 + 1
    {
      assert bits % 8 < 8;
      if BitSet(str[bytes], bits % 8) {
        TopBit(str[bytes], bits % 8);
        break;
      }
      NoTopBit(str[bytes], bits % 8);
      if bits % 8 == 0 {
        assert str[bytes..][1..] == str[bytes + 1..];
        bytes := bytes + 1;
        nbytes := nbytes - 1;
      }
      bits := bits - 1;
    }
    if str != [] {
      assert SshcomBytes(str[bytes..]) == str[bytes..];
      assert bits + 1 == 8 * (|str[bytes..]| - 1) + BitCount(str[bytes]);
    }
    assert SshcomBytes(str) == str[bytes..] && SshcomBits(str) == bits + 1;
    bs.PutUint32(bits + 1);
    bs.PutData(str[bytes..]);
  }

  lemma TopBit(b: byte, i: nat)
    requires i < 8 && BitSet(b, i) && BitCount(b) <= i + 1
    ensures BitCount(b) == i + 1 && b != 0
  {
  }

  lemma NoTopBit(b: byte, i: nat)
    requires i < 8 && !BitSet(b, i) && BitCount(b) <= i + 1
    ensures i > 0 ==> BitCount(b) <= i
    ensures i == 0 ==> b == 0
  {
  }

  /** (bits + 7) / 8 in unsigned 32-bit arithmetic. */
  function ByteCount(bits: uint32): nat {
    (bits + 7) % TWO32 / 8
  }

  /** get_mp_sshcom_as_string */
  function TakeMpSshcom(s: Source): (Source, seq<byte>) {
    var (s1, bits) := TakeUint32(s);
    TakeData(s1, ByteCount(bits))
  }

  method GetMpSshcomAsString(src: BinarySource) returns (r: seq<byte>)
    requires src.Valid()
    modifies src
    ensures src.Valid() && (src.Value(), r) == old(TakeMpSshcom(src.Value()))
  {
    var bits := src.GetUint32();
    r := src.GetData(ByteCount(bits));
  }

  /** Reading back returns exactly the bytes written. */
  lemma TakeMpSshcomPut(str: seq<byte>, tail: seq<byte>)
    requires |str| < 0x1000_0000
    ensures TakeMpSshcom(Source(U32(SshcomBits(str)) + SshcomBytes(str) + tail, false))
         == (Source(tail, false), SshcomBytes(str))
  {
    hide U32, FromU32, SshcomBits, SshcomBytes, TakeUint32, TakeData, ByteCount;
    var t := SshcomBytes(str);
    SshcomCount(str);
    Assoc(U32(SshcomBits(str)), t, tail);
    TakeUint32Put(SshcomBits(str), t + tail);
    TakeDataPut(t, tail);
  }

  lemma SshcomCount(str: seq<byte>)
    requires |str| < 0x1000_0000
    ensures ByteCount(SshcomBits(str) % TWO32) == |SshcomBytes(str)|
  {
    hide SshcomBits, SshcomBytes;
    SshcomMeaning(str);
  }

  // ----- strings on the wire

  /** A string is its length in four bytes, most significant first, and its bytes. */
  lemma StringInWords(s: seq<byte>)
    requires |s| < 0x1_0000_0000
    ensures var t := StringBytes(s); |t| == |s| + 4 && BigEndian(t[..4]) == |s| && t[4..] == s
  {
    WordsAreBigEndian(|s|, U32(|s|));
    assert StringBytes(s)[..4] == U32(|s|) && StringBytes(s)[4..] == s;
  }
}
