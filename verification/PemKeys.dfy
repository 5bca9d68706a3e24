/**
 OpenSSH private keys in the old PEM format, at the level of the key blob: an RSA
 or DSA key is written as a SEQUENCE of INTEGERs (appendix A.1.2 of RFC 8017),
 padded and encrypted if there is a passphrase, and read back into the public
 and private blobs.
 */
module PemKeys {
  import opened Marshal
  import opened MpInts
  import opened Ber

  datatype KeyType = Rsa | Dsa

  /** What a passphrase and an initialisation vector amount to. */
  datatype Cipher = Cipher(encrypt: seq<byte> -> seq<byte>, decrypt: seq<byte> -> seq<byte>)

  datatype Protection = Plain | Encrypted(cipher: Cipher)

  datatype ReadResult =
    | Key(publicBlob: seq<byte>, privateBlob: seq<byte>)
    | WrongPassphrase
    | Malformed

  /** On whole cipher blocks, encryption keeps the length and decryption undoes it. */
  ghost predicate InversePair(c: Cipher) {
    forall s {:trigger c.encrypt(s)} :: |s| % 8 == 0 ==> |c.encrypt(s)| == |s| && c.decrypt(c.encrypt(s)) == s
  }

  // ----- key blobs

  const SSH_RSA: seq<byte> := [115, 115, 104, 45, 114, 115, 97]
  const SSH_DSS: seq<byte> := [115, 115, 104, 45, 100, 115, 115]

  /** The fields of an RSA key, each the content of an mpint. */
  datatype RsaFields = RsaFields(e: seq<byte>, n: seq<byte>, d: seq<byte>, p: seq<byte>, q: seq<byte>, iqmp: seq<byte>)

  datatype DsaFields = DsaFields(p: seq<byte>, q: seq<byte>, g: seq<byte>, y: seq<byte>, x: seq<byte>)

  function RsaPublic(k: RsaFields): seq<byte> {
    StringBytes(SSH_RSA) + (StringBytes(k.e) + StringBytes(k.n))
  }

  function RsaPrivate(k: RsaFields): seq<byte> {
    StringBytes(k.d) + (StringBytes(k.p) + (StringBytes(k.q) + StringBytes(k.iqmp)))
  }

  function DsaPublic(k: DsaFields): seq<byte> {
    StringBytes(SSH_DSS) + (StringBytes(k.p) + (StringBytes(k.q) + (StringBytes(k.g) + StringBytes(k.y))))
  }

  function DsaPrivate(k: DsaFields): seq<byte> {
    StringBytes(k.x)
  }

  /** Reading the blobs of an RSA key: the fields, and whether the private blob
      was well formed. */
  function TakeRsa(pub: seq<byte>, priv: seq<byte>): (RsaFields, bool) {
    var (s1, _) := TakeString(Source(pub, false));
    var (s2, e) := TakeString(s1);
    var (s3, n) := TakeString(s2);
    var (t1, d) := TakeString(Source(priv, false));
    var (t2, p) := TakeString(t1);
    var (t3, q) := TakeString(t2);
    var (t4, iqmp) := TakeString(t3);
    (RsaFields(e, n, d, p, q, iqmp), !t4.err)
  }

  function TakeDsa(pub: seq<byte>, priv: seq<byte>): (DsaFields, bool) {
    var (s1, _) := TakeString(Source(pub, false));
    var (s2, p) := TakeString(s1);
    var (s3, q) := TakeString(s2);
    var (s4, g) := TakeString(s3);
    var (s5, y) := TakeString(s4);
    var (t1, x) := TakeString(Source(priv, false));
    (DsaFields(p, q, g, y, x), !t1.err)
  }

  predicate Short(s: seq<byte>) { |s| < 0x100_0000 }

  predicate CanonicalRsa(k: RsaFields) {
    && Canonical(k.e) && Canonical(k.n) && Canonical(k.d) && Canonical(k.p) && Canonical(k.q) && Canonical(k.iqmp)
    && Short(k.e) && Short(k.n) && Short(k.d) && Short(k.p) && Short(k.q) && Short(k.iqmp)
  }

  predicate CanonicalDsa(k: DsaFields) {
    && Canonical(k.p) && Canonical(k.q) && Canonical(k.g) && Canonical(k.y) && Canonical(k.x)
    && Short(k.p) && Short(k.q) && Short(k.g) && Short(k.y) && Short(k.x)
  }

  lemma TakeStringLast(s: seq<byte>)
    requires |s| < TWO32
    ensures TakeString(Source(StringBytes(s), false)) == (Source([], false), s)
  {
    hide TakeString, StringBytes;
    assert StringBytes(s) + [] == StringBytes(s);
    TakeStringPut(s, []);
  }

  lemma TakeRsaPut(k: RsaFields)
    requires CanonicalRsa(k)
    ensures TakeRsa(RsaPublic(k), RsaPrivate(k)) == (k, true)
  {
    hide TakeString, StringBytes, Canonical;
    TakeStringPut(SSH_RSA, StringBytes(k.e) + StringBytes(k.n));
    TakeStringPut(k.e, StringBytes(k.n));
    TakeStringLast(k.n);
    TakeStringPut(k.d, StringBytes(k.p) + (StringBytes(k.q) + StringBytes(k.iqmp)));
    TakeStringPut(k.p, StringBytes(k.q) + StringBytes(k.iqmp));
    TakeStringPut(k.q, StringBytes(k.iqmp));
    TakeStringLast(k.iqmp);
  }

  lemma TakeDsaPut(k: DsaFields)
    requires CanonicalDsa(k)
    ensures TakeDsa(DsaPublic(k), DsaPrivate(k)) == (k, true)
  {
    hide TakeString, StringBytes, Canonical;
    TakeStringPut(SSH_DSS, StringBytes(k.p) + (StringBytes(k.q) + (StringBytes(k.g) + StringBytes(k.y))));
    TakeStringPut(k.p, StringBytes(k.q) + (StringBytes(k.g) + StringBytes(k.y)));
    TakeStringPut(k.q, StringBytes(k.g) + StringBytes(k.y));
    TakeStringPut(k.g, StringBytes(k.y));
    TakeStringLast(k.y);
    TakeStringLast(k.x);
  }

  // ----- numbers derived from the key

  function NBits(v: nat): nat {
    if v == 0 then 0 else 1 + NBits(v / 2)
  }

  /** The len lowest bytes of v, most significant first. */
  function ToBytes(v: nat, len: nat): (s: seq<byte>)
    ensures |s| == len
  {
    if len == 0 then [] else ToBytes(v / 256, len - 1) + [v % 256]
  }

  /** v in (nbits + 8) / 8 bytes, so with a clear sign bit. */
  function SignedBytes(v: nat): seq<byte> {
    ToBytes(v, (NBits(v) + 8) / 8)
  }

  /** d mod (p - 1) */
  function ModPMinus1(d: seq<byte>, p: seq<byte>): seq<byte>
    requires BigEndian(p) > 1
  {
    SignedBytes(BigEndian(d) % (BigEndian(p) - 1))
  }

  lemma NBitsTwo(v: nat)
    ensures NBits(v) > 2 ==> NBits(v) == 2 + NBits(v / 4)
    ensures NBits(v) <= 2 ==> v < 4
    ensures NBits(v) <= 3 ==> v < 8
  {
    assert v / 2 / 2 == v / 4 && v / 4 / 2 == v / 8;
    assert NBits(v) == if v == 0 then 0 else 1 + NBits(v / 2);
    assert NBits(v / 2) == if v / 2 == 0 then 0 else 1 + NBits(v / 4);
    assert NBits(v / 4) == if v / 4 == 0 then 0 else 1 + NBits(v / 8);
    assert v / 8 != 0 ==> NBits(v / 8) >= 1;
  }

  lemma NBitsFour(v: nat)
    ensures NBits(v) > 4 ==> NBits(v) == 4 + NBits(v / 16)
    ensures NBits(v) <= 4 ==> v < 16
  {
    hide NBits;
    NBitsTwo(v);
    NBitsTwo(v / 4);
    assert v / 4 / 4 == v / 16;
  }

  /** The bits of a number are eight more than those of the number without its
      lowest byte. */
  lemma NBitsByte(v: nat)
    ensures NBits(v) > 8 ==> NBits(v) == 8 + NBits(v / 256)
    ensures NBits(v) <= 8 ==> v < 256
    ensures NBits(v) <= 7 ==> v < 128
  {
    hide NBits;
    NBitsFour(v);
    NBitsFour(v / 16);
    NBitsTwo(v / 16);
    assert v / 16 / 16 == v / 256;
  }

  lemma {:induction false} NBitsBound(v: nat, len: nat)
    requires NBits(v) <= 8 * len
    ensures v < Pow256(len)
  {
    hide NBits;
    NBitsByte(v);
    if len == 0 {
      NBitsZero(v);
    } else if NBits(v) > 8 {
      NBitsBound(v / 256, len - 1);
    }
  }

  lemma NBitsZero(v: nat)
    requires NBits(v) == 0
    ensures v == 0
  {
  }

  lemma {:induction false} ToBytesValue(v: nat, len: nat)
    requires v < Pow256(len)
    ensures BigEndian(ToBytes(v, len)) == v
  {
    if len > 0 {
      var s := ToBytes(v, len);
      ToBytesValue(v / 256, len - 1);
      assert s[..len - 1] == ToBytes(v / 256, len - 1);
    }
  }

  /** No leading zero byte but the one that keeps the sign bit clear. */
  predicate Minimal(s: seq<byte>) {
    |s| > 1 && s[0] == 0 ==> s[1] >= 128
  }

  /** The two exponents written to the file have the values CRT needs. */
  lemma ModPMinus1Value(d: seq<byte>, p: seq<byte>)
    requires BigEndian(p) > 1
    ensures BigEndian(ModPMinus1(d, p)) == BigEndian(d) % (BigEndian(p) - 1)
    ensures ModPMinus1(d, p) != [] && ModPMinus1(d, p)[0] < 128 && Minimal(ModPMinus1(d, p))
  {
    hide BigEndian, SignedBytes;
    SignedBytesValue(BigEndian(d) % (BigEndian(p) - 1));
  }

  lemma SignedBytesValue(v: nat)
    ensures BigEndian(SignedBytes(v)) == v && SignedBytes(v) != [] && SignedBytes(v)[0] < 128 && Minimal(SignedBytes(v))
  {
    hide NBits, ToBytes, BigEndian;
    var len := (NBits(v) + 8) / 8;
    NBitsBound(v, len);
    ToBytesValue(v, len);
    TopByte(v, len);
    if len > 1 {
      NoSpareByte(v, len);
    }
  }

  lemma {:induction false} NoSpareByte(v: nat, len: nat)
    requires len >= 2 && 8 * (len - 1) <= NBits(v) < 8 * len
    ensures ToBytes(v, len)[0] != 0 || ToBytes(v, len)[1] >= 128
  {
    hide NBits;
    NBitsByte(v);
    NBitsLow(v);
    if len == 2 {
      NBitsByte(v / 256);
      NBitsZeroOf();
      assert ToBytes(v / 256, 1) == ToBytes(v / 256 / 256, 0) + [v / 256 % 256];
    } else {
      NoSpareByte(v / 256, len - 1);
    }
  }

  lemma NBitsZeroOf()
    ensures NBits(0) == 0
  {
  }

  lemma NBitsLow(v: nat)
    ensures NBits(v) >= 8 ==> v >= 128
  {
    ByteBits(if v < 256 then v else 0);
  }

  /** The bits of a byte, counted. */
  lemma ByteBits(b: byte)
    ensures NBits(b) == if b == 0 then 0 else BitCount(b)
  {
    assert NBits(0) == 0 && NBits(1) == 1;
    NibbleBits(b);
    if b >= 16 {
      NibbleBits(b / 16);
      NBitsFour(b);
      NBitsFour(b / 16);
    }
  }

  lemma NibbleBits(b: byte)
    ensures b < 16 ==> NBits(b) == if b == 0 then 0 else if b < 2 then 1 else if b < 4 then 2 else if b < 8 then 3 else 4
  {
    if b < 16 {
      assert b / 2 / 2 == b / 4 && b / 4 / 2 == b / 8 && b / 8 / 2 == 0;
      assert NBits(b / 8) == if b / 8 == 0 then 0 else 1 + NBits(b / 8 / 2);
      assert NBits(b / 4) == if b / 4 == 0 then 0 else 1 + NBits(b / 8);
      assert NBits(b / 2) == if b / 2 == 0 then 0 else 1 + NBits(b / 4);
    }
  }

  lemma {:induction false} TopByte(v: nat, len: nat)
    requires len >= 1 && NBits(v) < 8 * len
    ensures ToBytes(v, len)[0] < 128
  {
    hide NBits;
    NBitsByte(v);
    if len == 1 {
      assert ToBytes(v / 256, 0) == [];
    } else if NBits(v) > 8 {
      TopByte(v / 256, len - 1);
    } else {
      LeadingZero(v, len);
    }
  }

  lemma {:induction false} LeadingZero(v: nat, len: nat)
    requires len >= 2 && v < 256
    ensures ToBytes(v, len)[0] == 0
  {
    if len == 2 {
      assert ToBytes(0, 0) == [] && ToBytes(v / 256, 1) == [0];
    } else {
      LeadingZero(v / 256, len - 1);
    }
  }

  // ----- writing

  /** Every length is small enough for the BER writer's shifts. */
  predicate Encodable(numbers: seq<seq<byte>>) {
    (forall n :: n in numbers ==> |n| < 0x100_0000) && |Body(numbers)| < 0x100_0000
  }

  function Integer(n: seq<byte>): seq<byte> {
    if |n| < 0x100_0000 then Header(2, |n|, 0) + n else []
  }

  function Body(numbers: seq<seq<byte>>): seq<byte> {
    if numbers == [] then [] else Integer(numbers[0]) + Body(numbers[1..])
  }

  function Sequence(numbers: seq<seq<byte>>): seq<byte>
    requires Encodable(numbers)
  {
    Header(16, |Body(numbers)|, 32) + Body(numbers)
  }

  /** Deterministic padding: between one and eight bytes, each equal to their
      number. */
  function Padded(s: seq<byte>): (t: seq<byte>)
    ensures |t| % 8 == 0 && s <= t
  {
    s + Repeat(8 - |s| % 8, 8 - |s| % 8)
  }

  function Protect(prot: Protection, s: seq<byte>): seq<byte> {
    if prot.Plain? then s else prot.cipher.encrypt(Padded(s))
  }

  /** The integers of an RSA key, with the two exponents CRT needs. */
  function RsaNumbers(k: RsaFields): seq<seq<byte>>
    requires BigEndian(k.p) > 1 && BigEndian(k.q) > 1
  {
    [[0], k.n, k.e, k.d, k.p, k.q, ModPMinus1(k.d, k.p), ModPMinus1(k.d, k.q), k.iqmp]
  }

  function DsaNumbers(k: DsaFields): seq<seq<byte>> {
    [[0], k.p, k.q, k.g, k.y, k.x]
  }

  /** What the writer demands of an RSA key: the private blob parses, and the
      two primes are not so small that reducing modulo p - 1 is undefined. */
  predicate RsaWritable(pub: seq<byte>, priv: seq<byte>) {
    var (k, ok) := TakeRsa(pub, priv);
    ok && BigEndian(k.p) > 1 && BigEndian(k.q) > 1 && Encodable(RsaNumbers(k))
  }

  predicate DsaWritable(pub: seq<byte>, priv: seq<byte>) {
    var (k, ok) := TakeDsa(pub, priv);
    ok && Encodable(DsaNumbers(k))
  }

  // ----- what a file holds, read item by item

  /** The first n items of a reader. */
  function TakeItems(s: Source, n: nat): (r: (Source, seq<BerItem>))
    ensures |r.1| == n
    decreases n
  {
    if n == 0 then (s, []) else
      var (s1, item) := TakeBer(s);
      var (t, items) := TakeItems(s1, n - 1);
      (t, [item] + items)
  }

  /** The first n strings of a reader. */
  function TakeStrings(s: Source, n: nat): (r: seq<seq<byte>>)
    ensures |r| == n
    decreases n
  {
    if n == 0 then [] else
      var (s1, x) := TakeString(s);
      [x] + TakeStrings(s1, n - 1)
  }

  function Decrypted(prot: Protection, blob: seq<byte>): seq<byte> {
    if prot.Plain? then blob else prot.cipher.decrypt(blob)
  }

  /** Between one and eight bytes up to a whole block, each equal to their number. */
  predicate IsPadding(pad: seq<byte>, total: nat) {
    1 <= |pad| <= 8 && total % 8 == 0 && forall i :: 0 <= i < |pad| ==> pad[i] == |pad|
  }

  /** The file is one SEQUENCE of exactly the INTEGERs ns, and padding if it is
      encrypted. */
  predicate FileHolds(prot: Protection, blob: seq<byte>, ns: seq<seq<byte>>) {
    var plain := Decrypted(prot, blob);
    var (s, item) := TakeBer(Source(plain, false));
    var (t, items) := TakeItems(Source(item.data, false), |ns|);
    && !s.err && item.id == 16 && item.flags == 32
    && !t.err && t.rest == []
    && (forall i :: 0 <= i < |ns| ==> items[i] == BerItem(2, 0, ns[i]))
    && if prot.Plain? then s.rest == [] else IsPadding(s.rest, |plain|)
  }

  /** Of an RSA key whose public blob is the name, e and n, and its private blob d,
      p, q and iqmp: version zero, n, e, d, p, q, d modulo p - 1, d modulo q - 1,
      iqmp. */
  predicate IsRsaFile(pub: seq<byte>, priv: seq<byte>, ns: seq<seq<byte>>) {
    var a, b := TakeStrings(Source(pub, false), 3), TakeStrings(Source(priv, false), 4);
    && |ns| == 9 && BigEndian(b[1]) > 1 && BigEndian(b[2]) > 1
    && ns[0] == [0] && ns[1] == a[2] && ns[2] == a[1]
    && ns[3] == b[0] && ns[4] == b[1] && ns[5] == b[2] && ns[8] == b[3]
    && BigEndian(ns[6]) == BigEndian(b[0]) % (BigEndian(b[1]) - 1)
    && BigEndian(ns[7]) == BigEndian(b[0]) % (BigEndian(b[2]) - 1)
    && Minimal(ns[6]) && Minimal(ns[7])
  }

  /** Of a DSA key whose public blob is the name, p, q, g and y, and its private
      blob x. */
  predicate IsDsaFile(pub: seq<byte>, priv: seq<byte>, ns: seq<seq<byte>>) {
    var a, b := TakeStrings(Source(pub, false), 5), TakeStrings(Source(priv, false), 1);
    ns == [[0], a[1], a[2], a[3], a[4], b[0]]
  }

  lemma {:induction false} ItemsOfBody(numbers: seq<seq<byte>>)
    requires forall n :: n in numbers ==> Short(n)
    ensures var (t, items) := TakeItems(Source(Body(numbers), false), |numbers|);
      && t == Source([], false)
      && forall i :: 0 <= i < |numbers| ==> items[i] == BerItem(2, 0, numbers[i])
  {
    hide TakeBer, Header;
    if numbers != [] {
      var rest := Body(numbers[1..]);
      assert IsFlags(0) && Short(numbers[0]);
      BerRoundTrip(2, 0, numbers[0], rest);
      ItemsOfBody(numbers[1..]);
      assert TakeBer(Source(Body(numbers), false)) == (Source(rest, false), BerItem(2, 0, numbers[0]));
    }
  }

  lemma FileOf(prot: Protection, numbers: seq<seq<byte>>)
    requires prot.Encrypted? ==> InversePair(prot.cipher)
    requires Encodable(numbers)
    ensures FileHolds(prot, Protect(prot, Sequence(numbers)), numbers)
  {
    hide TakeBer, Body, Header, TakeItems;
    var s := Sequence(numbers);
    var plain := if prot.Plain? then s else Padded(s);
    var tail := plain[|s|..];
    assert plain == s + tail;
    assert Decrypted(prot, Protect(prot, s)) == plain;
    BerRoundTrip(16, 32, Body(numbers), tail);
    ItemsOfBody(numbers);
  }

  lemma StringsOfRsa(pub: seq<byte>, priv: seq<byte>)
    ensures var a, b := TakeStrings(Source(pub, false), 3), TakeStrings(Source(priv, false), 4);
      TakeRsa(pub, priv).0 == RsaFields(a[1], a[2], b[0], b[1], b[2], b[3])
  {
    hide TakeString;
    var (s1, _) := TakeString(Source(pub, false));
    NextString(Source(pub, false), 2);
    NextString(s1, 1);
    NextString(TakeString(s1).0, 0);
    var t1 := TakeString(Source(priv, false)).0;
    var t2 := TakeString(t1).0;
    NextString(Source(priv, false), 3);
    NextString(t1, 2);
    NextString(t2, 1);
    NextString(TakeString(t2).0, 0);
  }

  lemma NextString(s: Source, n: nat)
    ensures TakeStrings(s, n + 1) == [TakeString(s).1] + TakeStrings(TakeString(s).0, n)
  {
  }

  lemma StringsOfDsa(pub: seq<byte>, priv: seq<byte>)
    ensures var a, b := TakeStrings(Source(pub, false), 5), TakeStrings(Source(priv, false), 1);
      TakeDsa(pub, priv).0 == DsaFields(a[1], a[2], a[3], a[4], b[0])
  {
    hide TakeString;
    var s1 := TakeString(Source(pub, false)).0;
    var s2 := TakeString(s1).0;
    var s3 := TakeString(s2).0;
    NextString(Source(pub, false), 4);
    NextString(s1, 3);
    NextString(s2, 2);
    NextString(s3, 1);
    NextString(TakeString(s3).0, 0);
    NextString(Source(priv, false), 0);
  }

  lemma RsaFileOf(pub: seq<byte>, priv: seq<byte>, prot: Protection)
    requires RsaWritable(pub, priv) && (prot.Encrypted? ==> InversePair(prot.cipher))
    ensures var ns := RsaNumbers(TakeRsa(pub, priv).0);
      FileHolds(prot, Protect(prot, Sequence(ns)), ns) && IsRsaFile(pub, priv, ns)
  {
    hide TakeString, TakeStrings, BigEndian, FileHolds, Protect, Sequence, Encodable, ModPMinus1, TakeRsa;
    StringsOfRsa(pub, priv);
    var k := TakeRsa(pub, priv).0;
    ModPMinus1Value(k.d, k.p);
    ModPMinus1Value(k.d, k.q);
    FileOf(prot, RsaNumbers(k));
  }

  lemma DsaFileOf(pub: seq<byte>, priv: seq<byte>, prot: Protection)
    requires DsaWritable(pub, priv) && (prot.Encrypted? ==> InversePair(prot.cipher))
    ensures var ns := DsaNumbers(TakeDsa(pub, priv).0);
      FileHolds(prot, Protect(prot, Sequence(ns)), ns) && IsDsaFile(pub, priv, ns)
  {
    hide TakeString, TakeStrings, FileHolds, Protect, Sequence, Encodable, TakeDsa;
    StringsOfDsa(pub, priv);
    FileOf(prot, DsaNumbers(TakeDsa(pub, priv).0));
  }

  lemma RsaFileFound(pub: seq<byte>, priv: seq<byte>, prot: Protection)
    requires RsaWritable(pub, priv)
    ensures (prot.Encrypted? ==> InversePair(prot.cipher)) ==>
      exists ns :: FileHolds(prot, Protect(prot, Sequence(RsaNumbers(TakeRsa(pub, priv).0))), ns) && IsRsaFile(pub, priv, ns)
  {
    hide *;
    if prot.Encrypted? ==> InversePair(prot.cipher) {
      RsaFileOf(pub, priv, prot);
    }
  }

  lemma DsaFileFound(pub: seq<byte>, priv: seq<byte>, prot: Protection)
    requires DsaWritable(pub, priv)
    ensures (prot.Encrypted? ==> InversePair(prot.cipher)) ==>
      exists ns :: FileHolds(prot, Protect(prot, Sequence(DsaNumbers(TakeDsa(pub, priv).0))), ns) && IsDsaFile(pub, priv, ns)
  {
    hide *;
    if prot.Encrypted? ==> InversePair(prot.cipher) {
      DsaFileOf(pub, priv, prot);
    }
  }

  // ----- the writers

  /** The bytes of a number, from its top byte down. */
  method NumberBytes(v: nat) returns (bytes: seq<byte>)
    ensures bytes == SignedBytes(v)
  {
    var len := (NBits(v) + 8) / 8;
    var spare := new byte[len];
    var i := 0;
    while i < len
      invariant i <= len
      invariant spare[..i] == ToBytes(Shift(v, 256, len - i), i)
    {
      spare[i] := Shift(v, 256, len - 1 - i) % 256;
      i := i + 1;
    }
    bytes := spare[..];
  }

  /** openssh_pem_write for RSA keys, from the key blobs to the blob saved in
      the file. */
  method WriteRsa(pub: seq<byte>, priv: seq<byte>, prot: Protection) returns (out: seq<byte>)
    requires RsaWritable(pub, priv)
    ensures out == Protect(prot, Sequence(RsaNumbers(TakeRsa(pub, priv).0)))
    ensures (prot.Encrypted? ==> InversePair(prot.cipher)) ==>
      exists ns :: FileHolds(prot, out, ns) && IsRsaFile(pub, priv, ns)
  {
    hide TakeString, BigEndian, SignedBytes, Sequence, Encodable, Protect, FileHolds, IsRsaFile, InversePair;
    RsaFileFound(pub, priv, prot);
    var src := new BinarySource(pub);
    var name := src.GetString();
    var e := src.GetString();
    var n := src.GetString();
    src := new BinarySource(priv);
    var d := src.GetString();
    var p := src.GetString();
    var q := src.GetString();
    var iqmp := src.GetString();
    var bd, bp, bq := BigEndian(d), BigEndian(p) - 1, BigEndian(q) - 1;
    var dmp1 := NumberBytes(bd % bp);
    var dmq1 := NumberBytes(bd % bq);
    out := WriteSequence([[0], n, e, d, p, q, dmp1, dmq1, iqmp], prot);
  }

  /** openssh_pem_write for DSA keys */
  method WriteDsa(pub: seq<byte>, priv: seq<byte>, prot: Protection) returns (out: seq<byte>)
    requires DsaWritable(pub, priv)
    ensures out == Protect(prot, Sequence(DsaNumbers(TakeDsa(pub, priv).0)))
    ensures (prot.Encrypted? ==> InversePair(prot.cipher)) ==>
      exists ns :: FileHolds(prot, out, ns) && IsDsaFile(pub, priv, ns)
  {
    hide TakeString, Sequence, Encodable, Protect, FileHolds, IsDsaFile, InversePair;
    DsaFileFound(pub, priv, prot);
    var src := new BinarySource(pub);
    var name := src.GetString();
    var p := src.GetString();
    var q := src.GetString();
    var g := src.GetString();
    var y := src.GetString();
    src := new BinarySource(priv);
    var x := src.GetString();
    out := WriteSequence([[0], p, q, g, y, x], prot);
  }

  method WriteSequence(numbers: seq<seq<byte>>, prot: Protection) returns (out: seq<byte>)
    requires Encodable(numbers)
    ensures out == Protect(prot, Sequence(numbers))
  {
    hide Body, Header, Padded;
    var inner := new StrBuf();
    WriteIntegers(inner, numbers);
    assert inner.contents == Body(numbers);
    var outblob := new StrBuf();
    PutBerIdLen(outblob, 16, |inner.contents|, 32);
    outblob.PutData(inner.contents);
    assert outblob.contents == Sequence(numbers);
    if prot.Encrypted? {
      Pad(outblob);
      outblob.contents := prot.cipher.encrypt(outblob.contents);
    }
    out := outblob.contents;
  }

  /** Padding up to a whole number of cipher blocks, always at least one byte. */
  method Pad(outblob: StrBuf)
    modifies outblob
    ensures outblob.contents == Padded(old(outblob.contents))
  {
    var origlen := |outblob.contents|;
    var outlen := (origlen + 8) / 8 * 8;
    var pad := outlen - origlen;
    outblob.PutPadding(pad, pad);
  }

  method WriteIntegers(bs: StrBuf, numbers: seq<seq<byte>>)
    requires forall n :: n in numbers ==> |n| < 0x100_0000
    modifies bs
    ensures bs.contents == old(bs.contents) + Body(numbers)
  {
    hide Header;
    var i := 0;
    while i < |numbers|
      invariant i <= |numbers|
      invariant bs.contents + Body(numbers[i..]) == old(bs.contents) + Body(numbers)
    {
      ghost var before := bs.contents;
      PutBerIdLen(bs, 2, |numbers[i]|, 0);
      bs.PutData(numbers[i]);
      Assoc(before, Header(2, |numbers[i]|, 0), numbers[i]);
      assert numbers[i..][1..] == numbers[i + 1..];
      Assoc(before, Integer(numbers[i]), Body(numbers[i + 1..]));
      i := i + 1;
    }
    assert Body(numbers[i..]) == [];
  }

  // ----- reading

  /** A parse failure means a wrong passphrase if there was one. */
  function Failure(encrypted: bool): ReadResult {
    if encrypted then WrongPassphrase else Malformed
  }

  function IntegerCount(kt: KeyType): nat { if kt.Rsa? then 9 else 6 }

  /** The state of the loop over the integers: how many have been read, the blob
      assembled so far, where its private part starts, and the modulus that waits
      for the public exponent. */
  datatype Progress = Progress(i: nat, blob: seq<byte>, privptr: nat, modulus: seq<byte>)

  /** What the i-th integer does, its error already excluded. */
  function Absorb(kt: KeyType, st: Progress, data: seq<byte>): Progress {
    var mp := StringBytes(MpContent(data));
    var next := st.(i := st.i + 1);
    if st.i == 0 then next
    else if kt.Rsa? then
      if st.i == 1 then next.(modulus := data)
      else if st.i == 6 || st.i == 7 then next
      else if st.i == 2 then
        var blob := st.blob + mp + StringBytes(MpContent(st.modulus));
        next.(blob := blob, privptr := |blob|)
      else next.(blob := st.blob + mp)
    else if st.i == 4 then next.(blob := st.blob + mp, privptr := |st.blob + mp|)
    else next.(blob := st.blob + mp)
  }

  function ParseIntegers(kt: KeyType, encrypted: bool, s: Source, st: Progress): ReadResult
    decreases IntegerCount(kt) - st.i
  {
    if st.i >= IntegerCount(kt) then
      if st.privptr <= |st.blob| then Key(st.blob[..st.privptr], st.blob[st.privptr..]) else Malformed
    else
      var (s1, item) := TakeBer(s);
      if s1.err || item.id != 2 then Failure(encrypted)
      else if st.i == 0 && item.data != [0] then Malformed
      else ParseIntegers(kt, encrypted, s1, Absorb(kt, st, item.data))
  }

  function AlgorithmName(kt: KeyType): seq<byte> { if kt.Rsa? then SSH_RSA else SSH_DSS }

  /** openssh_pem_read on the blob of the file, up to the two blobs it hands to
      the key code. */
  function Parse(kt: KeyType, prot: Protection, blob: seq<byte>): ReadResult {
    var plain := if prot.Plain? then blob else prot.cipher.decrypt(blob);
    var (s, item) := TakeBer(Source(plain, false));
    if s.err || item.id != 16 then Failure(prot.Encrypted?)
    else ParseIntegers(kt, prot.Encrypted?, Source(item.data, false), Progress(0, StringBytes(AlgorithmName(kt)), 0, []))
  }

  method Read(kt: KeyType, prot: Protection, keyblob: seq<byte>) returns (r: ReadResult)
    ensures r == Parse(kt, prot, keyblob)
  {
    hide TakeBer, ParseIntegers, StringBytes;
    var plain := if prot.Encrypted? then prot.cipher.decrypt(keyblob) else keyblob;
    var src := new BinarySource(plain);
    var item := GetBer(src);
    if src.err || item.id != 16 {
      return if prot.Encrypted? then WrongPassphrase else Malformed;
    }
    src := new BinarySource(item.data);
    r := ReadIntegers(kt, prot.Encrypted?, src);
  }

  method ReadIntegers(kt: KeyType, encrypted: bool, src: BinarySource) returns (r: ReadResult)
    requires src.Valid()
    modifies src
    ensures r == old(ParseIntegers(kt, encrypted, src.Value(), Progress(0, StringBytes(AlgorithmName(kt)), 0, [])))
  {
    hide TakeBer, MpContent, StringBytes, Onward;
    var blob := new StrBuf();
    blob.PutString(AlgorithmName(kt));
    assert blob.contents == StringBytes(AlgorithmName(kt));
    var modulus: seq<byte> := [];
    var privptr: nat := 0;
    var i := 0;
    while i < IntegerCount(kt)
      invariant i <= IntegerCount(kt) && src.Valid() && privptr <= |blob.contents|
      invariant ParseIntegers(kt, encrypted, src.Value(), Progress(i, blob.contents, privptr, modulus))
             == old(ParseIntegers(kt, encrypted, src.Value(), Progress(0, StringBytes(AlgorithmName(kt)), 0, [])))
    {
      var integer := GetBer(src);
      if src.err || integer.id != 2 {
        return if encrypted then WrongPassphrase else Malformed;
      }
      if i == 0 {
        if integer.data != [0] {
          return Malformed;
        }
      } else if kt.Rsa? {
        if i == 1 {
          modulus := integer.data;
        } else if i != 6 && i != 7 {
          PutMpSsh2FromString(blob, integer.data);
          if i == 2 {
            PutMpSsh2FromString(blob, modulus);
            privptr := |blob.contents|;
          }
        }
      } else {
        PutMpSsh2FromString(blob, integer.data);
        if i == 4 {
          privptr := |blob.contents|;
        }
      }
      i := i + 1;
    }
    r := Key(blob.contents[..privptr], blob.contents[privptr..]);
  }

  // ----- reading undoes writing

  lemma ParseStep(kt: KeyType, encrypted: bool, st: Progress, number: seq<byte>, tail: seq<byte>)
    requires st.i < IntegerCount(kt) && Short(number) && (st.i == 0 ==> number == [0])
    ensures ParseIntegers(kt, encrypted, Source(Integer(number) + tail, false), st)
         == ParseIntegers(kt, encrypted, Source(tail, false), Absorb(kt, st, number))
  {
    hide TakeBer, Absorb, Header;
    BerRoundTrip(2, 0, number, tail);
  }

  lemma {:induction false} ParseBody(kt: KeyType, encrypted: bool, st: Progress, numbers: seq<seq<byte>>)
    requires st.i + |numbers| == IntegerCount(kt)
    requires forall n :: n in numbers ==> Short(n)
    requires st.i == 0 ==> numbers[0] == [0]
    ensures ParseIntegers(kt, encrypted, Source(Body(numbers), false), st)
         == ParseIntegers(kt, encrypted, Source([], false), AbsorbAll(kt, st, numbers))
    decreases |numbers|
  {
    hide Absorb, ParseIntegers, Integer;
    if numbers != [] {
      ParseStep(kt, encrypted, st, numbers[0], Body(numbers[1..]));
      AbsorbAdvances(kt, st, numbers[0]);
      ParseBody(kt, encrypted, Absorb(kt, st, numbers[0]), numbers[1..]);
    }
  }

  lemma AbsorbAdvances(kt: KeyType, st: Progress, data: seq<byte>)
    ensures Absorb(kt, st, data).i == st.i + 1
  {
  }

  function AbsorbAll(kt: KeyType, st: Progress, numbers: seq<seq<byte>>): Progress
    decreases |numbers|
  {
    if numbers == [] then st else AbsorbAll(kt, Absorb(kt, st, numbers[0]), numbers[1..])
  }

  // ----- what the reader makes of any file

  function Contents(items: seq<BerItem>): (ns: seq<seq<byte>>)
    ensures |ns| == |items| && forall i :: 0 <= i < |ns| ==> ns[i] == items[i].data
  {
    seq(|items|, i requires 0 <= i < |items| => items[i].data)
  }

  predicate AllIntegers(items: seq<BerItem>) {
    forall i :: 0 <= i < |items| ==> items[i].id == 2
  }

  lemma {:induction false} ErrorStays(s: Source, n: nat)
    ensures s.err ==> TakeItems(s, n).0.err
    decreases n
  {
    hide TakeBer;
    if n > 0 {
      ErrorStays(TakeBer(s).0, n - 1);
    }
  }

  /** The loop, from any point on, reads the remaining items, and takes in all of
      them or fails. */
  lemma {:induction false} ParseItems(kt: KeyType, encrypted: bool, s: Source, st: Progress)
    requires 0 < st.i <= IntegerCount(kt) && !s.err
    ensures var (t, items) := TakeItems(s, IntegerCount(kt) - st.i);
      ParseIntegers(kt, encrypted, s, st) ==
        if t.err || !AllIntegers(items) then Failure(encrypted)
        else ParseIntegers(kt, encrypted, t, AbsorbAll(kt, st, Contents(items)))
    decreases IntegerCount(kt) - st.i
  {
    hide TakeBer, Absorb, Failure, Onward;
    var n := IntegerCount(kt) - st.i;
    if n == 0 {
      assert Contents(TakeItems(s, 0).1) == [];
    } else {
      var (s1, item) := TakeBer(s);
      var (t, items) := TakeItems(s, n);
      var rest := TakeItems(s1, n - 1).1;
      assert items == [item] + rest;
      ErrorStays(s1, n - 1);
      if !s1.err && item.id == 2 {
        AbsorbAdvances(kt, st, item.data);
        ParseItems(kt, encrypted, s1, Absorb(kt, st, item.data));
        AllIntegersCons(item, rest);
        assert Contents(items)[1..] == Contents(rest);
      } else if !s1.err {
        assert !AllIntegers(items) by { assert items[0].id != 2; }
      }
    }
  }

  lemma AllIntegersCons(item: BerItem, rest: seq<BerItem>)
    ensures AllIntegers([item] + rest) <==> item.id == 2 && AllIntegers(rest)
  {
    var items := [item] + rest;
    assert items[0] == item && forall i :: 0 <= i < |rest| ==> rest[i] == items[i + 1];
  }

  /** The decrypted file is a SEQUENCE of nine INTEGERs for RSA, six for DSA, the
      first of them zero. */
  predicate IsKeyFile(kt: KeyType, plain: seq<byte>) {
    var (s, item) := TakeBer(Source(plain, false));
    var (t, items) := TakeItems(Source(item.data, false), IntegerCount(kt));
    !s.err && item.id == 16 && !t.err && AllIntegers(items) && items[0].data == [0]
  }

  /** The decrypted file starts like one, but with another version. */
  predicate IsOtherVersion(plain: seq<byte>) {
    var (s, item) := TakeBer(Source(plain, false));
    var (t, version) := TakeBer(Source(item.data, false));
    !s.err && item.id == 16 && !t.err && version.id == 2 && version.data != [0]
  }

  function Integers(kt: KeyType, plain: seq<byte>): (ns: seq<seq<byte>>)
    ensures |ns| == if kt.Rsa? then 9 else 6
  {
    Contents(TakeItems(Source(TakeBer(Source(plain, false)).1.data, false), if kt.Rsa? then 9 else 6).1)
  }

  /** On any file: exactly the key files give a key, made of canonical forms of
      their integers in the order the key code wants; a failure is a wrong
      passphrase if there is one, except that another version is malformed. */
  lemma ParseMeans(kt: KeyType, prot: Protection, blob: seq<byte>)
    ensures var plain, r := Decrypted(prot, blob), Parse(kt, prot, blob);
      var ns := Integers(kt, plain);
      && (r.Key? <==> IsKeyFile(kt, plain))
      && (r == WrongPassphrase <==> prot.Encrypted? && !IsKeyFile(kt, plain) && !IsOtherVersion(plain))
      && (r.Key? ==> r == match kt
           case Rsa => Key(RsaPublicOf(ns), RsaPrivateOf(ns))
           case Dsa => Key(DsaPublicOf(ns), DsaPrivateOf(ns)))
  {
    hide TakeBer, Absorb, RsaPublicOf, RsaPrivateOf, DsaPublicOf, DsaPrivateOf, Onward;
    var plain := Decrypted(prot, blob);
    var (s, item) := TakeBer(Source(plain, false));
    if !s.err && item.id == 16 {
      var src := Source(item.data, false);
      var st := Progress(0, StringBytes(AlgorithmName(kt)), 0, []);
      var (s1, first) := TakeBer(src);
      var n := IntegerCount(kt);
      var (t, items) := TakeItems(src, n);
      var rest := TakeItems(s1, n - 1).1;
      assert items == [first] + rest;
      ErrorStays(s1, n - 1);
      AllIntegersCons(first, rest);
      if !s1.err && first.id == 2 && first.data == [0] {
        AbsorbAdvances(kt, st, first.data);
        ParseItems(kt, prot.Encrypted?, s1, Absorb(kt, st, first.data));
        assert Contents(items)[1..] == Contents(rest);
        ParseEnds(kt, prot.Encrypted?, t, st, Contents(items));
      }
    }
  }

  lemma ParseEnds(kt: KeyType, encrypted: bool, t: Source, st: Progress, ns: seq<seq<byte>>)
    requires st == Progress(0, StringBytes(AlgorithmName(kt)), 0, []) && |ns| == IntegerCount(kt)
    ensures ParseIntegers(kt, encrypted, t, AbsorbAll(kt, st, ns))
         == match kt
            case Rsa => Key(RsaPublicOf(ns), RsaPrivateOf(ns))
            case Dsa => Key(DsaPublicOf(ns), DsaPrivateOf(ns))
  {
    hide RsaPublicOf, RsaPrivateOf, DsaPublicOf, DsaPrivateOf, StringBytes, AbsorbAll;
    match kt
    case Rsa =>
      AbsorbRsaNumbers(ns);
      SplitBlob(RsaPublicOf(ns), RsaPrivateOf(ns));
    case Dsa =>
      AbsorbDsaNumbers(ns);
      SplitBlob(DsaPublicOf(ns), DsaPrivateOf(ns));
  }

  /** The padding and the cipher leave the SEQUENCE readable. */
  lemma ParseProtected(kt: KeyType, prot: Protection, numbers: seq<seq<byte>>)
    requires prot.Encrypted? ==> InversePair(prot.cipher)
    requires Encodable(numbers) && |numbers| == IntegerCount(kt) && numbers[0] == [0]
    ensures Parse(kt, prot, Protect(prot, Sequence(numbers)))
         == ParseIntegers(kt, prot.Encrypted?, Source([], false),
                          AbsorbAll(kt, Progress(0, StringBytes(AlgorithmName(kt)), 0, []), numbers))
  {
    hide TakeBer, ParseIntegers, Body, Header, Absorb;
    var s := Sequence(numbers);
    var plain := if prot.Plain? then s else Padded(s);
    var tail := plain[|s|..];
    assert plain == s + tail;
    BerRoundTrip(16, 32, Body(numbers), tail);
    ParseBody(kt, prot.Encrypted?, Progress(0, StringBytes(AlgorithmName(kt)), 0, []), numbers);
  }

  /** The two blobs made of the integers of an RSA file, canonical again: the
      modulus waits for the exponent, and the exponents at 6 and 7 are dropped. */
  function RsaPublicOf(ns: seq<seq<byte>>): seq<byte>
    requires |ns| == 9
  {
    StringBytes(SSH_RSA) + StringBytes(MpContent(ns[2])) + StringBytes(MpContent(ns[1]))
  }

  function RsaPrivateOf(ns: seq<seq<byte>>): seq<byte>
    requires |ns| == 9
  {
    StringBytes(MpContent(ns[3])) + StringBytes(MpContent(ns[4])) + StringBytes(MpContent(ns[5])) + StringBytes(MpContent(ns[8]))
  }

  lemma AbsorbRsaNumbers(ns: seq<seq<byte>>)
    requires |ns| == 9
    ensures AbsorbAll(Rsa, Progress(0, StringBytes(SSH_RSA), 0, []), ns)
         == Progress(9, RsaPublicOf(ns) + RsaPrivateOf(ns), |RsaPublicOf(ns)|, ns[1])
  {
    hide StringBytes, MpContent, AbsorbAll;
    var b0 := StringBytes(SSH_RSA);
    var b3 := b0 + StringBytes(MpContent(ns[2])) + StringBytes(MpContent(ns[1]));
    var b4 := b3 + StringBytes(MpContent(ns[3]));
    var b5 := b4 + StringBytes(MpContent(ns[4]));
    var b6 := b5 + StringBytes(MpContent(ns[5]));
    var b9 := b6 + StringBytes(MpContent(ns[8]));
    AbsorbNext(Rsa, Progress(0, b0, 0, []), ns, 0);
    AbsorbNext(Rsa, Progress(1, b0, 0, []), ns, 1);
    AbsorbNext(Rsa, Progress(2, b0, 0, ns[1]), ns, 2);
    AbsorbNext(Rsa, Progress(3, b3, |b3|, ns[1]), ns, 3);
    AbsorbNext(Rsa, Progress(4, b4, |b3|, ns[1]), ns, 4);
    AbsorbNext(Rsa, Progress(5, b5, |b3|, ns[1]), ns, 5);
    AbsorbNext(Rsa, Progress(6, b6, |b3|, ns[1]), ns, 6);
    AbsorbNext(Rsa, Progress(7, b6, |b3|, ns[1]), ns, 7);
    AbsorbNext(Rsa, Progress(8, b6, |b3|, ns[1]), ns, 8);
    AbsorbNone(Rsa, Progress(9, b9, |b3|, ns[1]));
    assert ns[0..] == ns && ns[9..] == [];
    FourMore(b3, StringBytes(MpContent(ns[3])), StringBytes(MpContent(ns[4])), StringBytes(MpContent(ns[5])),
      StringBytes(MpContent(ns[8])));
  }

  lemma FourMore(a: seq<byte>, b: seq<byte>, c: seq<byte>, d: seq<byte>, e: seq<byte>)
    ensures a + b + c + d + e == a + (b + c + d + e)
  {
  }

  lemma AbsorbNext(kt: KeyType, st: Progress, ns: seq<seq<byte>>, i: nat)
    requires i < |ns|
    ensures AbsorbAll(kt, st, ns[i..]) == AbsorbAll(kt, Absorb(kt, st, ns[i]), ns[i + 1..])
  {
    assert ns[i..][1..] == ns[i + 1..];
  }

  lemma RsaNumbersBack(k: RsaFields)
    requires CanonicalRsa(k) && BigEndian(k.p) > 1 && BigEndian(k.q) > 1
    ensures RsaPublicOf(RsaNumbers(k)) == RsaPublic(k) && RsaPrivateOf(RsaNumbers(k)) == RsaPrivate(k)
  {
    hide StringBytes, MpContent, Canonical, BigEndian, ModPMinus1;
    MpContentOfCanonical(k.e);
    MpContentOfCanonical(k.n);
    MpContentOfCanonical(k.d);
    MpContentOfCanonical(k.p);
    MpContentOfCanonical(k.q);
    MpContentOfCanonical(k.iqmp);
    Assoc(StringBytes(SSH_RSA), StringBytes(k.e), StringBytes(k.n));
    FourMore([], StringBytes(k.d), StringBytes(k.p), StringBytes(k.q), StringBytes(k.iqmp));
    Assoc(StringBytes(k.d), StringBytes(k.p), StringBytes(k.q) + StringBytes(k.iqmp));
    Assoc(StringBytes(k.d) + StringBytes(k.p), StringBytes(k.q), StringBytes(k.iqmp));
  }

  lemma AbsorbNone(kt: KeyType, st: Progress)
    ensures AbsorbAll(kt, st, []) == st
  {
  }

  /** Writing an RSA key and reading it back rebuilds both blobs byte for byte,
      with or without a passphrase, despite the reordering of the fields and the
      two exponents that are dropped on reading. */
  lemma RsaRoundTrip(k: RsaFields, prot: Protection)
    requires CanonicalRsa(k) && RsaWritable(RsaPublic(k), RsaPrivate(k))
    requires prot.Encrypted? ==> InversePair(prot.cipher)
    ensures Parse(Rsa, prot, Protect(prot, Sequence(RsaNumbers(TakeRsa(RsaPublic(k), RsaPrivate(k)).0))))
         == Key(RsaPublic(k), RsaPrivate(k))
  {
    hide TakeRsa, RsaPublic, RsaPrivate, BigEndian, ModPMinus1, Canonical, Encodable, Parse, Protect, Sequence, StringBytes, AbsorbAll;
    TakeRsaPut(k);
    ParseProtected(Rsa, prot, RsaNumbers(k));
    AbsorbRsaNumbers(RsaNumbers(k));
    RsaNumbersBack(k);
    SplitBlob(RsaPublic(k), RsaPrivate(k));
  }

  lemma SplitBlob(a: seq<byte>, b: seq<byte>)
    ensures (a + b)[..|a|] == a && (a + b)[|a|..] == b
  {
  }

  function DsaPublicOf(ns: seq<seq<byte>>): seq<byte>
    requires |ns| == 6
  {
    StringBytes(SSH_DSS) + StringBytes(MpContent(ns[1])) + StringBytes(MpContent(ns[2])) + StringBytes(MpContent(ns[3]))
    + StringBytes(MpContent(ns[4]))
  }

  function DsaPrivateOf(ns: seq<seq<byte>>): seq<byte>
    requires |ns| == 6
  {
    StringBytes(MpContent(ns[5]))
  }

  lemma AbsorbDsaNumbers(ns: seq<seq<byte>>)
    requires |ns| == 6
    ensures AbsorbAll(Dsa, Progress(0, StringBytes(SSH_DSS), 0, []), ns)
         == Progress(6, DsaPublicOf(ns) + DsaPrivateOf(ns), |DsaPublicOf(ns)|, [])
  {
    hide StringBytes, MpContent, AbsorbAll;
    var b0 := StringBytes(SSH_DSS);
    var b2 := b0 + StringBytes(MpContent(ns[1]));
    var b3 := b2 + StringBytes(MpContent(ns[2]));
    var b4 := b3 + StringBytes(MpContent(ns[3]));
    var b5 := b4 + StringBytes(MpContent(ns[4]));
    AbsorbNext(Dsa, Progress(0, b0, 0, []), ns, 0);
    AbsorbNext(Dsa, Progress(1, b0, 0, []), ns, 1);
    AbsorbNext(Dsa, Progress(2, b2, 0, []), ns, 2);
    AbsorbNext(Dsa, Progress(3, b3, 0, []), ns, 3);
    AbsorbNext(Dsa, Progress(4, b4, 0, []), ns, 4);
    AbsorbNext(Dsa, Progress(5, b5, |b5|, []), ns, 5);
    AbsorbNone(Dsa, Progress(6, b5 + StringBytes(MpContent(ns[5])), |b5|, []));
    assert ns[0..] == ns && ns[6..] == [];
  }

  lemma DsaNumbersBack(k: DsaFields)
    requires CanonicalDsa(k)
    ensures DsaPublicOf(DsaNumbers(k)) == DsaPublic(k) && DsaPrivateOf(DsaNumbers(k)) == DsaPrivate(k)
  {
    hide StringBytes, MpContent, Canonical;
    MpContentOfCanonical(k.p);
    MpContentOfCanonical(k.q);
    MpContentOfCanonical(k.g);
    MpContentOfCanonical(k.y);
    MpContentOfCanonical(k.x);
    FourMore(StringBytes(SSH_DSS), StringBytes(k.p), StringBytes(k.q), StringBytes(k.g), StringBytes(k.y));
    Assoc(StringBytes(k.p), StringBytes(k.q), StringBytes(k.g) + StringBytes(k.y));
    Assoc(StringBytes(k.p) + StringBytes(k.q), StringBytes(k.g), StringBytes(k.y));
  }

  /** The same for a DSA key. */
  lemma DsaRoundTrip(k: DsaFields, prot: Protection)
    requires CanonicalDsa(k) && DsaWritable(DsaPublic(k), DsaPrivate(k))
    requires prot.Encrypted? ==> InversePair(prot.cipher)
    ensures Parse(Dsa, prot, Protect(prot, Sequence(DsaNumbers(TakeDsa(DsaPublic(k), DsaPrivate(k)).0))))
         == Key(DsaPublic(k), DsaPrivate(k))
  {
    hide TakeDsa, DsaPublic, DsaPrivate, Canonical, Encodable, Parse, Protect, Sequence, StringBytes, AbsorbAll;
    TakeDsaPut(k);
    ParseProtected(Dsa, prot, DsaNumbers(k));
    AbsorbDsaNumbers(DsaNumbers(k));
    DsaNumbersBack(k);
    SplitBlob(DsaPublic(k), DsaPrivate(k));
  }
}
