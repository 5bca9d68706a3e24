/**
 ASN.1/BER identifier and length octets (sections 8.1.2 and 8.1.3 of ITU-T
 X.690), written by loops that count the groups first, and read back from
 arbitrary input.
 */
module Ber {
  import opened Marshal
  import opened MpInts

  const TWO64 := 0x1_0000_0000_0000_0000

  datatype BerItem = BerItem(id: int32, flags: byte, data: seq<byte>)

  /** Class and constructed bits: the top three bits of the leading byte. */
  predicate IsFlags(flags: byte) {
    flags % 32 == 0
  }

  // ----- writing

  /** The groups of id, seven bits each, most significant first; every byte but
      the last of an identifier has its top bit set. */
  function Base128(id: nat, more: bool): (s: seq<byte>) {
    if id < 128 then [Group128(id, more)] else Base128(id / 128, true) + [Group128(id, more)]
  }

  function Group128(id: nat, more: bool): byte {
    id % 128 + if more then 128 else 0
  }

  function Base256(n: nat): (s: seq<byte>)
    ensures |s| >= 1
  {
    if n < 256 then [n] else Base256(n / 256) + [n % 256]
  }

  function IdBytes(id: nat, flags: byte): seq<byte>
    requires IsFlags(flags)
  {
    if id <= 30 then [id + flags] else [31 + flags] + Base128(id, false)
  }

  function LengthBytes(length: nat): seq<byte>
    requires length < 0x100_0000
  {
    Base256Length(length);
    if length < 128 then [length] else [128 + |Base256(length)|] + Base256(length)
  }

  lemma {:induction false} Base256Length(n: nat)
    requires n < 0x100_0000
    ensures |Base256(n)| <= 3
    ensures n < 0x1_0000 ==> |Base256(n)| <= 2
  {
    if n >= 256 {
      Base256Length(n / 256);
      if n < 0x1_0000 {
        assert n / 256 < 256;
      }
    }
  }

  function Header(id: nat, length: nat, flags: byte): seq<byte>
    requires IsFlags(flags) && length < 0x100_0000
  {
    IdBytes(id, flags) + LengthBytes(length)
  }

  /** x shifted right by n groups of the given radix. */
  function Shift(x: nat, radix: nat, n: nat): nat
    requires radix > 1
  {
    if n == 0 then x else Shift(x, radix, n - 1) / radix
  }

  /** BinarySink_put_ber_id_len.  The bounds keep the program's shift counts
      below the width of an int. */
  method PutBerIdLen(bs: StrBuf, id: nat, length: nat, flags: byte)
    requires IsFlags(flags) && id < 0x1000_0000 && length < 0x100_0000
    modifies bs
    ensures bs.contents == old(bs.contents) + Header(id, length, flags)
  {
    ghost var before := bs.contents;
    if id <= 30 {
      bs.PutByte(id + flags);
    } else {
      bs.PutByte(31 + flags);
      PutIdGroups(bs, id);
      Assoc(before, [31 + flags], Base128(id, false));
    }
    ghost var middle := bs.contents;
    if length < 128 {
      bs.PutByte(length);
    } else {
      Base256Length(length);
      PutLengthGroups(bs, length);
    }
    Assoc(before, IdBytes(id, flags), LengthBytes(length));
  }

  /** x has exactly n groups; zero counts as one. */
  ghost predicate GroupCount(x: nat, radix: nat, n: nat)
    requires radix > 1
  {
    n >= 1 && Shift(x, radix, n) == 0 && forall m :: 0 < m < n ==> Shift(x, radix, m) > 0
  }

  method CountGroups(x: nat, radix: nat) returns (n: nat)
    requires radix == 128 || radix == 256
    ensures GroupCount(x, radix, n)
  {
    n := 1;
    while Shift(x, radix, n) > 0
      invariant n >= 1 && forall m :: 0 < m < n ==> Shift(x, radix, m) > 0
      decreases Shift(x, radix, n)
    {
      QuotientSmaller(Shift(x, radix, n), radix);
      n := n + 1;
    }
  }

  lemma QuotientSmaller(x: nat, radix: nat)
    requires (radix == 128 || radix == 256) && x > 0
    ensures x / radix < x
  {
  }

  method PutIdGroups(bs: StrBuf, id: nat)
    requires id < 0x1000_0000
    modifies bs
    ensures bs.contents == old(bs.contents) + Base128(id, false)
  {
    var n := CountGroups(id, 128);
    ghost var count := n;
    ghost var written: seq<byte> := [];
    while n > 0
      invariant n <= count
      invariant bs.contents == old(bs.contents) + written
      invariant n == count ==> written == []
      invariant n < count ==> written == Base128(Shift(id, 128, n), n > 0)
    {
      n := n - 1;
      var group := Group128(Shift(id, 128, n), n > 0);
      Assoc(old(bs.contents), written, [group]);
      written := written + [group];
      bs.PutByte(group);
    }
  }

  method PutLengthGroups(bs: StrBuf, length: nat)
    requires 128 <= length < 0x100_0000
    modifies bs
    ensures bs.contents == old(bs.contents) + LengthBytes(length)
  {
    var n := CountGroups(length, 256);
    Base256Count(length, n);
    Base256Length(length);
    bs.PutByte(128 + n);
    ghost var count, before := n, bs.contents;
    ghost var written: seq<byte> := [];
    while n > 0
      invariant n <= count
      invariant bs.contents == before + written
      invariant n == count ==> written == []
      invariant n < count ==> written == Base256(Shift(length, 256, n))
    {
      n := n - 1;
      var group: byte := Shift(length, 256, n) % 256;
      Assoc(before, written, [group]);
      written := written + [group];
      bs.PutByte(group);
    }
    Assoc(old(bs.contents), [128 + |Base256(length)|], Base256(length));
  }

  lemma {:induction false} ShiftHead(x: nat, radix: nat, n: nat)
    requires radix > 1 && n >= 1
    ensures Shift(x, radix, n) == Shift(x / radix, radix, n - 1)
  {
    if n > 1 {
      ShiftHead(x, radix, n - 1);
    }
  }

  lemma {:induction false} Base256Count(x: nat, n: nat)
    requires GroupCount(x, 256, n)
    ensures |Base256(x)| == n
  {
    ShiftHead(x, 256, n);
    if n == 1 {
      assert x / 256 == 0;
    } else {
      assert Shift(x, 256, 1) > 0;
      forall m | 0 < m < n - 1 ensures Shift(x / 256, 256, m) > 0 {
        ShiftHead(x, 256, m + 1);
      }
      Base256Count(x / 256, n - 1);
    }
  }

  // ----- reading

  /** An int after a shift or an addition that may have left its range. */
  function Wrap(x: int): int32 {
    ToInt(x % TWO32)
  }

  /** (id << 7) | (idbyte & 0x7F) */
  function IdStep(id: int32, idbyte: byte): int32 {
    Wrap(id * 128 + idbyte % 128)
  }

  /** (length << 8) | byte */
  function LengthStep(length: nat, b: byte): nat {
    (length * 256 + b) % TWO64
  }

  /** Reading got from s to t: what is left is the end of the input, and an error
      stays. */
  predicate Onward(s: Source, t: Source) {
    Left(s, t) && (s.err ==> t.err)
  }

  predicate Left(s: Source, t: Source) {
    |t.rest| <= |s.rest| && t.rest == s.rest[|s.rest| - |t.rest|..]
  }

  lemma OnwardTrans(s: Source, t: Source, u: Source)
    requires Onward(s, t) && Onward(t, u)
    ensures Onward(s, u)
  {
    var k, l := |s.rest| - |t.rest|, |t.rest| - |u.rest|;
    assert s.rest[k..][l..] == s.rest[k + l..];
  }

  lemma TakeByteOnward(s: Source)
    ensures Onward(s, TakeByte(s).0)
  {
  }

  /** The data taken ends where what is left begins. */
  lemma TakeDataOnward(s: Source, wanted: nat)
    ensures var (t, data) := TakeData(s, wanted);
      Onward(s, t) && (!t.err ==> !s.err && s.rest == data + t.rest)
  {
    assert !TakeData(s, wanted).0.err ==> s.rest == s.rest[..wanted] + s.rest[wanted..];
  }

  function TakeIdGroups(s: Source, acc: int32): (r: (Source, int32))
    ensures Onward(s, r.0)
    decreases |s.rest|
  {
    TakeByteOnward(s);
    var (s1, b) := TakeByte(s);
    if b >= 128 then
      var r := TakeIdGroups(s1, IdStep(acc, b));
      OnwardTrans(s, s1, r.0);
      r
    else
      (s1, IdStep(acc, b))
  }

  function TakeLengthGroups(s: Source, n: nat, acc: nat): (r: (Source, nat))
    ensures Onward(s, r.0)
    decreases n
  {
    if n == 0 then (s, acc) else
      TakeByteOnward(s);
      var (s1, b) := TakeByte(s);
      var r := TakeLengthGroups(s1, n - 1, LengthStep(acc, b));
      OnwardTrans(s, s1, r.0);
      r
  }

  function FlagsOf(lead: byte): (flags: byte)
    ensures IsFlags(flags)
  {
    lead - lead % 32
  }

  function TakeId(s: Source): (r: (Source, int32, byte))
    ensures Onward(s, r.0) && IsFlags(r.2)
  {
    TakeByteOnward(s);
    var (s1, lead) := TakeByte(s);
    if lead % 32 == 31 then
      var (s2, id) := TakeIdGroups(s1, 0);
      OnwardTrans(s, s1, s2);
      (s2, id, FlagsOf(lead))
    else
      (s1, lead % 32, FlagsOf(lead))
  }

  function TakeLength(s: Source): (r: (Source, nat))
    ensures Onward(s, r.0)
  {
    TakeByteOnward(s);
    var (s1, lenbyte) := TakeByte(s);
    if lenbyte >= 128 then
      var r := TakeLengthGroups(s1, lenbyte - 128, 0);
      OnwardTrans(s, s1, r.0);
      r
    else
      (s1, lenbyte)
  }

  /** BinarySource_get_ber.  On any input it only moves forward and never clears
      an error; without one, the data are the bytes just before what is left. */
  function TakeBer(s: Source): (r: (Source, BerItem))
    ensures Onward(s, r.0)
    ensures !r.0.err ==> Onward(s, Source(r.1.data + r.0.rest, false))
  {
    var (s1, id, flags) := TakeId(s);
    var (s2, length) := TakeLength(s1);
    OnwardTrans(s, s1, s2);
    TakeDataOnward(s2, length);
    var (s3, data) := TakeData(s2, length);
    OnwardTrans(s, s2, s3);
    (s3, BerItem(id, flags, data))
  }

  method GetIdGroups(src: BinarySource) returns (id: int32)
    requires src.Valid()
    modifies src
    ensures src.Valid() && (src.Value(), id) == old(TakeIdGroups(src.Value(), 0))
  {
    hide IdStep;
    id := 0;
    var more := true;
    while more
      invariant src.Valid()
      invariant if more then TakeIdGroups(src.Value(), id) == old(TakeIdGroups(src.Value(), 0))
                else (src.Value(), id) == old(TakeIdGroups(src.Value(), 0))
      decreases more, |src.Value().rest|
    {
      var idbyte := src.GetByte();
      id := IdStep(id, idbyte);
      more := idbyte >= 128;
    }
  }

  method GetLengthGroups(src: BinarySource, n: nat) returns (length: nat)
    requires src.Valid()
    modifies src
    ensures src.Valid() && (src.Value(), length) == old(TakeLengthGroups(src.Value(), n, 0))
  {
    hide LengthStep;
    length := 0;
    var nbytes := n;
    while nbytes > 0
      invariant src.Valid()
      invariant TakeLengthGroups(src.Value(), nbytes, length) == old(TakeLengthGroups(src.Value(), n, 0))
    {
      var b := src.GetByte();
      length := LengthStep(length, b);
      nbytes := nbytes - 1;
    }
  }

  method GetBer(src: BinarySource) returns (item: BerItem)
    requires src.Valid()
    modifies src
    ensures src.Valid() && (src.Value(), item) == old(TakeBer(src.Value()))
  {
    hide TakeByte, TakeIdGroups, TakeLengthGroups, TakeData, Onward;
    var leadbyte := src.GetByte();
    var flags := FlagsOf(leadbyte);
    var id: int32 := leadbyte % 32;
    if leadbyte % 32 == 31 {
      id := GetIdGroups(src);
    }
    var lenbyte := src.GetByte();
    var length: nat := lenbyte;
    if lenbyte >= 128 {
      length := GetLengthGroups(src, lenbyte - 128);
    }
    var data := src.GetData(length);
    item := BerItem(id, flags, data);
  }

  // ----- the reader undoes the writer

  lemma TakeByteCons(b: byte, t: seq<byte>)
    ensures TakeByte(Source([b] + t, false)) == (Source(t, false), b)
  {
    assert ([b] + t)[1..] == t;
  }

  lemma IdStepGroup(x: nat, more: bool)
    requires x < 0x1000_0000
    ensures IdStep(x / 128, Group128(x, more)) == x && (Group128(x, more) >= 128 <==> more)
  {
    assert Group128(x, more) % 128 == x % 128;
  }

  lemma LengthStepGroup(x: nat)
    requires x < 0x100_0000
    ensures LengthStep(x / 256, x % 256) == x
  {
  }

  lemma {:induction false} TakeIdGroupsMore(x: nat, t: seq<byte>)
    requires x < 0x1000_0000
    ensures TakeIdGroups(Source(Base128(x, true) + t, false), 0) == TakeIdGroups(Source(t, false), x)
  {
    hide IdStep, Group128, TakeByte, Onward;
    var low := Group128(x, true);
    IdStepGroup(x, true);
    TakeByteCons(low, t);
    if x >= 128 {
      Assoc(Base128(x / 128, true), [low], t);
      TakeIdGroupsMore(x / 128, [low] + t);
    }
  }

  lemma TakeIdGroupsPut(x: nat, t: seq<byte>)
    requires x < 0x1000_0000
    ensures TakeIdGroups(Source(Base128(x, false) + t, false), 0) == (Source(t, false), x)
  {
    hide IdStep, Group128, TakeByte, Onward;
    var low := Group128(x, false);
    IdStepGroup(x, false);
    TakeByteCons(low, t);
    if x >= 128 {
      Assoc(Base128(x / 128, true), [low], t);
      TakeIdGroupsMore(x / 128, [low] + t);
    }
  }

  lemma {:induction false} TakeLengthGroupsPut(x: nat, n: nat, t: seq<byte>)
    requires x < 0x100_0000 && n >= |Base256(x)|
    ensures TakeLengthGroups(Source(Base256(x) + t, false), n, 0) == TakeLengthGroups(Source(t, false), n - |Base256(x)|, x)
  {
    hide LengthStep, TakeByte, Onward;
    var low: byte := x % 256;
    LengthStepGroup(x);
    TakeByteCons(low, t);
    if x >= 256 {
      Assoc(Base256(x / 256), [low], t);
      TakeLengthGroupsPut(x / 256, n, [low] + t);
    }
  }

  lemma TakeIdPut(id: nat, flags: byte, t: seq<byte>)
    requires IsFlags(flags) && id < 0x1000_0000
    ensures TakeId(Source(IdBytes(id, flags) + t, false)) == (Source(t, false), id, flags)
  {
    hide TakeByte, TakeIdGroups, Base128;
    LeadByte(id, flags);
    if id <= 30 {
      TakeByteCons(id + flags, t);
    } else {
      Assoc([31 + flags], Base128(id, false), t);
      TakeByteCons(31 + flags, Base128(id, false) + t);
      TakeIdGroupsPut(id, t);
    }
  }

  lemma LeadByte(id: nat, flags: byte)
    requires IsFlags(flags)
    ensures id <= 30 ==> FlagsOf(id + flags) == flags && (id + flags) % 32 == id
    ensures FlagsOf(31 + flags) == flags && (31 + flags) % 32 == 31
  {
  }

  lemma TakeLengthPut(length: nat, t: seq<byte>)
    requires length < 0x100_0000
    ensures TakeLength(Source(LengthBytes(length) + t, false)) == (Source(t, false), length)
  {
    if length < 128 {
      TakeByteCons(length, t);
    } else {
      Base256Length(length);
      var n := |Base256(length)|;
      Assoc([128 + n], Base256(length), t);
      TakeByteCons(128 + n, Base256(length) + t);
      TakeLengthGroupsPut(length, n, t);
    }
  }

  /** For every identifier below 2^28, flags in the top three bits, data shorter
      than 2^24 bytes and any tail, reading undoes writing and stops at the tail. */
  lemma BerRoundTrip(id: nat, flags: byte, data: seq<byte>, tail: seq<byte>)
    requires IsFlags(flags) && id < 0x1000_0000 && |data| < 0x100_0000
    ensures TakeBer(Source(Header(id, |data|, flags) + data + tail, false)) == (Source(tail, false), BerItem(id, flags, data))
  {
    hide IdBytes, LengthBytes, TakeId, TakeLength, TakeData;
    Assoc(Header(id, |data|, flags), data, tail);
    Assoc(IdBytes(id, flags), LengthBytes(|data|), data + tail);
    TakeIdPut(id, flags, LengthBytes(|data|) + (data + tail));
    TakeLengthPut(|data|, data + tail);
    TakeDataPut(data, tail);
  }

  // ----- the octets in the standard's words

  /** The number that groups of seven bits denote, most significant first. */
  function SevenBits(g: seq<byte>): nat {
    if g == [] then 0 else SevenBits(g[..|g| - 1]) * 128 + g[|g| - 1] % 128
  }

  /** Every octet but the last has its top bit set. */
  predicate IsGroups(g: seq<byte>) {
    g != [] && g[|g| - 1] < 128 && forall i :: 0 <= i < |g| - 1 ==> g[i] >= 128
  }

  lemma {:induction false} Base128Means(id: nat, more: bool)
    ensures var g := Base128(id, more);
      && SevenBits(g) == id && g != [] && (g[|g| - 1] >= 128 <==> more)
      && (forall i :: 0 <= i < |g| - 1 ==> g[i] >= 128)
      && (id >= 128 ==> g[0] % 128 != 0)
  {
    if id >= 128 {
      Base128Means(id / 128, true);
      var g := Base128(id / 128, true);
      assert Base128(id, more)[..|g|] == g;
      assert id / 128 < 128 ==> g == [Group128(id / 128, true)];
    } else {
      assert Base128(id, more)[..0] == [];
    }
  }

  lemma {:induction false} Base256Means(n: nat)
    ensures BigEndian(Base256(n)) == n && (n > 0 ==> Base256(n)[0] != 0)
  {
    if n >= 256 {
      Base256Means(n / 256);
      assert Base256(n)[..|Base256(n)| - 1] == Base256(n / 256);
    } else {
      assert Base256(n)[..0] == [];
    }
  }

  /** Section 8.1.2: one octet below 31, and otherwise the fewest groups of seven
      bits.  Section 8.1.3: one octet below 128, and otherwise the number of the
      fewest octets and then those. */
  lemma HeaderMeans(id: nat, length: nat, flags: byte)
    requires IsFlags(flags) && length < 0x100_0000
    ensures id < 31 ==> IdBytes(id, flags) == [flags + id]
    ensures id >= 31 ==> var s := IdBytes(id, flags);
      s[0] == flags + 31 && IsGroups(s[1..]) && SevenBits(s[1..]) == id && (|s| > 2 ==> s[1] != 128)
    ensures length < 128 ==> LengthBytes(length) == [length]
    ensures length >= 128 ==> var s := LengthBytes(length);
      s[0] == 128 + (|s| - 1) && BigEndian(s[1..]) == length && |s| > 1 && s[1] != 0
  {
    hide Base128, Base256;
    if id >= 31 {
      Base128Means(id, false);
      assert IdBytes(id, flags)[1..] == Base128(id, false);
      if id < 128 {
        ShortGroup(id);
      }
    }
    if length >= 128 {
      Base256Means(length);
      assert LengthBytes(length)[1..] == Base256(length);
    }
  }

  lemma ShortGroup(id: nat)
    requires id < 128
    ensures |Base128(id, false)| == 1
  {
  }

  lemma IdStepMod(id: int32, v: nat, b: byte)
    requires id % TWO32 == v % TWO32
    ensures IdStep(id, b) % TWO32 == (v * 128 + b % 128) % TWO32
  {
    var q := id / TWO32 - v / TWO32;
    assert id == v + TWO32 * q;
    WordPlusMultiple(v * 128 + b % 128, 128 * q);
  }

  lemma WordPlusMultiple(x: int, k: int)
    ensures (x + TWO32 * k) % TWO32 == x % TWO32
  {
  }

  lemma LengthStepMod(v: nat, b: byte)
    ensures LengthStep(v % TWO64, b) == (v * 256 + b) % TWO64
  {
    var q := v / TWO64;
    assert v == v % TWO64 + TWO64 * q;
    LongPlusMultiple(v % TWO64 * 256 + b, 256 * q);
  }

  lemma LongPlusMultiple(x: int, k: int)
    ensures (x + TWO64 * k) % TWO64 == x % TWO64
  {
  }

  /** The reader takes any groups for the number they denote, modulo 2^32. */
  lemma {:induction false} TakeIdMeans(before: seq<byte>, g: seq<byte>, tail: seq<byte>, acc: int32)
    requires IsGroups(g) && acc % TWO32 == SevenBits(before) % TWO32
    ensures var (s, id) := TakeIdGroups(Source(g + tail, false), acc);
      s == Source(tail, false) && id % TWO32 == SevenBits(before + g) % TWO32
    decreases |g|
  {
    hide IdStep, TakeByte, Onward;
    var b, rest := g[0], g[1..];
    assert g + tail == [b] + (rest + tail);
    TakeByteCons(b, rest + tail);
    IdStepMod(acc, SevenBits(before), b);
    assert (before + [b])[..|before|] == before;
    if |g| > 1 {
      assert before + [b] + rest == before + g;
      TakeIdMeans(before + [b], rest, tail, IdStep(acc, b));
    } else {
      assert g == [b] && rest + tail == tail;
    }
  }

  /** Length octets likewise, modulo 2^64. */
  lemma {:induction false} TakeLengthMeans(before: seq<byte>, d: seq<byte>, tail: seq<byte>)
    ensures TakeLengthGroups(Source(d + tail, false), |d|, BigEndian(before) % TWO64)
         == (Source(tail, false), BigEndian(before + d) % TWO64)
    decreases |d|
  {
    hide TakeByte, Onward, LengthStep;
    if d == [] {
      assert d + tail == tail && before + d == before;
    } else {
      var b, rest := d[0], d[1..];
      assert d + tail == [b] + (rest + tail) && before + [b] + rest == before + d;
      TakeByteCons(b, rest + tail);
      assert (before + [b])[..|before|] == before;
      LengthStepMod(BigEndian(before), b);
      TakeLengthMeans(before + [b], rest, tail);
    }
  }

  /** Reading any header in those forms, minimal or not. */
  lemma TakeHeaderMeans(g: seq<byte>, d: seq<byte>, id: nat, length: nat, flags: byte, tail: seq<byte>)
    requires IsGroups(g) && |d| < 128 && id < 31 && length < 128 && IsFlags(flags)
    ensures TakeId(Source([flags + id] + tail, false)) == (Source(tail, false), id, flags)
    ensures TakeId(Source([flags + 31] + g + tail, false)) == (Source(tail, false), ToInt(SevenBits(g) % TWO32), flags)
    ensures TakeLength(Source([length] + tail, false)) == (Source(tail, false), length)
    ensures TakeLength(Source([128 + |d|] + d + tail, false)) == (Source(tail, false), BigEndian(d) % TWO64)
  {
    hide *;
    TakeShortForms(id, length, flags, tail);
    TakeLongId(g, flags, tail);
    TakeLongLength(d, tail);
  }

  lemma TakeShortForms(id: nat, length: nat, flags: byte, tail: seq<byte>)
    requires id < 31 && length < 128 && IsFlags(flags)
    ensures TakeId(Source([flags + id] + tail, false)) == (Source(tail, false), id, flags)
    ensures TakeLength(Source([length] + tail, false)) == (Source(tail, false), length)
  {
    hide TakeByte, TakeIdGroups, TakeLengthGroups, Onward;
    LeadByte(id, flags);
    TakeByteCons(flags + id, tail);
    TakeByteCons(length, tail);
  }

  lemma TakeLongId(g: seq<byte>, flags: byte, tail: seq<byte>)
    requires IsGroups(g) && IsFlags(flags)
    ensures TakeId(Source([flags + 31] + g + tail, false)) == (Source(tail, false), ToInt(SevenBits(g) % TWO32), flags)
  {
    hide TakeByte, TakeIdGroups, SevenBits, Onward, IsGroups;
    LeadByte(0, flags);
    Assoc([flags + 31], g, tail);
    TakeByteCons(flags + 31, g + tail);
    assert [] + g == g;
    NoGroups();
    TakeIdMeans([], g, tail, 0);
    ToIntOfWord(TakeIdGroups(Source(g + tail, false), 0).1);
  }

  lemma TakeLongLength(d: seq<byte>, tail: seq<byte>)
    requires |d| < 128
    ensures TakeLength(Source([128 + |d|] + d + tail, false)) == (Source(tail, false), BigEndian(d) % TWO64)
  {
    hide TakeByte, TakeLengthGroups, BigEndian, Onward;
    Assoc([128 + |d|], d, tail);
    TakeByteCons(128 + |d|, d + tail);
    assert [] + d == d;
    NoGroups();
    TakeLengthMeans([], d, tail);
  }

  lemma NoGroups()
    ensures SevenBits([]) == 0 && BigEndian([]) == 0
  {
  }
}
