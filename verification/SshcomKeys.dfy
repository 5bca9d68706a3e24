/**
 ssh.com private keys at the level of the key blob: the integers of an RSA or DSA
 key in their bit-counted form, three length fields patched in afterwards,
 random padding and a block cipher; and reading such a blob back.
 */
module SshcomKeys {
  import opened Marshal
  import opened MpInts
  import opened PemKeys

  const MAGIC := 0x3f6f_f9eb

  /** "if-modn{sign{rsa" and "dl-modp{sign{dsa", and what follows them in the
      type strings the writer uses. */
  const PREFIX_RSA: seq<byte> := [105, 102, 45, 109, 111, 100, 110, 123, 115, 105, 103, 110, 123, 114, 115, 97]
  const REST_RSA: seq<byte> := [45, 112, 107, 99, 115, 49, 45, 115, 104, 97, 49, 125, 44, 101, 110, 99, 114, 121, 112, 116,
                                123, 114, 115, 97, 45, 112, 107, 99, 115, 49, 118, 50, 45, 111, 97, 101, 112, 125, 125]
  const PREFIX_DSA: seq<byte> := [100, 108, 45, 109, 111, 100, 112, 123, 115, 105, 103, 110, 123, 100, 115, 97]
  const REST_DSA: seq<byte> := [45, 110, 105, 115, 116, 45, 115, 104, 97, 49, 125, 44, 100, 104, 123, 112, 108, 97, 105, 110, 125, 125]

  /** "none" and "3des-cbc" */
  const NONE: seq<byte> := [110, 111, 110, 101]
  const TRIPLE_DES: seq<byte> := [51, 100, 101, 115, 45, 99, 98, 99]

  function Prefix(kt: KeyType): seq<byte> { if kt.Rsa? then PREFIX_RSA else PREFIX_DSA }

  function TypeName(kt: KeyType): seq<byte> { Prefix(kt) + if kt.Rsa? then REST_RSA else REST_DSA }

  function CipherName(prot: Protection): seq<byte> { if prot.Plain? then NONE else TRIPLE_DES }

  // ----- writing

  /** One integer in the bit-counted form. */
  function Number(s: seq<byte>): seq<byte> {
    U32(SshcomBits(s)) + SshcomBytes(s)
  }

  function NumberList(numbers: seq<seq<byte>>): seq<byte> {
    if numbers == [] then [] else Number(numbers[0]) + NumberList(numbers[1..])
  }

  function RsaOrder(k: RsaFields): seq<seq<byte>> { [k.e, k.d, k.n, k.iqmp, k.q, k.p] }

  function DsaOrder(k: DsaFields): seq<seq<byte>> { [k.p, k.g, k.q, k.y, k.x] }

  /** The payload before its length is put in front and it is padded. */
  function Payload(kt: KeyType, numbers: seq<seq<byte>>): seq<byte> {
    (if kt.Dsa? then U32(0) else []) + NumberList(numbers)
  }

  /** The encrypted part in the clear: the payload as a string, then padding. */
  function Clear(kt: KeyType, numbers: seq<seq<byte>>, padding: seq<byte>): seq<byte> {
    StringBytes(Payload(kt, numbers)) + padding
  }

  /** How much padding reaches a whole number of cipher blocks. */
  function PaddingLength(kt: KeyType, numbers: seq<seq<byte>>, prot: Protection): nat {
    if prot.Plain? then 0 else -|StringBytes(Payload(kt, numbers))| % 8
  }

  function Front(kt: KeyType, prot: Protection, total: int): seq<byte> {
    U32(MAGIC) + U32(total) + StringBytes(TypeName(kt)) + StringBytes(CipherName(prot))
  }

  /** The whole file blob; `secret` is the encrypted part. */
  function Blob(kt: KeyType, prot: Protection, secret: seq<byte>): seq<byte> {
    var total := |Front(kt, prot, 0)| + 4 + |secret|;
    Front(kt, prot, total) + StringBytes(secret)
  }

  function Secret(kt: KeyType, numbers: seq<seq<byte>>, prot: Protection, padding: seq<byte>): seq<byte> {
    var clear := Clear(kt, numbers, padding);
    if prot.Plain? then clear else prot.cipher.encrypt(clear)
  }

  method WriteNumbers(bs: StrBuf, numbers: seq<seq<byte>>)
    requires forall n :: n in numbers ==> |n| < 0x1000_0000
    modifies bs
    ensures bs.contents == old(bs.contents) + NumberList(numbers)
  {
    hide U32, SshcomBits, SshcomBytes;
    var i := 0;
    while i < |numbers|
      invariant i <= |numbers|
      invariant bs.contents + NumberList(numbers[i..]) == old(bs.contents) + NumberList(numbers)
    {
      ghost var before := bs.contents;
      PutMpSshcomFromString(bs, numbers[i]);
      Assoc(before, U32(SshcomBits(numbers[i])), SshcomBytes(numbers[i]));
      assert numbers[i..][1..] == numbers[i + 1..];
      Assoc(before, Number(numbers[i]), NumberList(numbers[i + 1..]));
      i := i + 1;
    }
    assert NumberList(numbers[i..]) == [];
  }

  lemma PatchMiddle(front: seq<byte>, word: seq<byte>, rest: seq<byte>, v: int)
    requires |word| == 4
    ensures var s := front + word + rest;
            s[..|front|] + U32(v) + s[|front| + 4..] == front + U32(v) + rest
  {
    hide U32;
    var s := front + word + rest;
    assert s[..|front|] == front && s[|front| + 4..] == rest;
  }

  method PutFront(outblob: StrBuf, kt: KeyType, prot: Protection)
    requires outblob.contents == []
    modifies outblob
    ensures outblob.contents == Front(kt, prot, 0)
  {
    hide U32, StringBytes;
    outblob.PutUint32(MAGIC);
    outblob.PutUint32(0);
    outblob.PutString(TypeName(kt));
    outblob.PutString(CipherName(prot));
    assert [] + U32(MAGIC) == U32(MAGIC);
  }

  /** The payload behind its length, which is patched in when it is known. */
  method PutPayload(outblob: StrBuf, kt: KeyType, numbers: seq<seq<byte>>)
    requires forall n :: n in numbers ==> |n| < 0x1000_0000
    modifies outblob
    ensures outblob.contents == old(outblob.contents) + StringBytes(Payload(kt, numbers))
  {
    hide U32, NumberList;
    var lenpos := |outblob.contents|;
    ghost var front := outblob.contents;
    outblob.PutUint32(0);
    if kt.Dsa? {
      outblob.PutUint32(0);
    }
    WriteNumbers(outblob, numbers);
    ghost var payload := Payload(kt, numbers);
    assert outblob.contents == front + U32(0) + payload by {
      Assoc(front + U32(0), U32(0), NumberList(numbers));
      assert [] + NumberList(numbers) == NumberList(numbers);
    }
    PatchMiddle(front, U32(0), payload, |payload|);
    outblob.Patch32(lenpos, |outblob.contents| - (lenpos + 4));
    Assoc(front, U32(|payload|), payload);
  }

  /** The encrypted part behind its length, padded to whole cipher blocks and
      still in the clear. */
  method PutClear(outblob: StrBuf, kt: KeyType, numbers: seq<seq<byte>>, prot: Protection, random: seq<byte>)
    requires forall n :: n in numbers ==> |n| < 0x1000_0000
    requires prot.Encrypted? ==> |random| >= 8
    modifies outblob
    ensures outblob.contents
         == old(outblob.contents) + StringBytes(Clear(kt, numbers, random[..PaddingLength(kt, numbers, prot)]))
  {
    hide U32, NumberList, Payload;
    var lenpos := |outblob.contents|;
    ghost var front := outblob.contents;
    outblob.PutUint32(0);
    PutPayload(outblob, kt, numbers);
    if prot.Encrypted? {
      var padding := -(|outblob.contents| - (lenpos + 4)) % 8;
      outblob.PutData(random[..padding]);
    }
    ghost var inner, pad := StringBytes(Payload(kt, numbers)), random[..PaddingLength(kt, numbers, prot)];
    Assoc(front + U32(0), inner, pad);
    ghost var clear := Clear(kt, numbers, pad);
    assert outblob.contents == front + U32(0) + clear;
    PatchMiddle(front, U32(0), clear, |clear|);
    outblob.Patch32(lenpos, |outblob.contents| - (lenpos + 4));
    Assoc(front, U32(|clear|), clear);
  }

  /** sshcom_write from the integers to the blob saved in the file, with the
      length fields filled in afterwards.  `random` is what the random source
      supplies; the cipher keeps the length of whole blocks. */
  method Write(kt: KeyType, numbers: seq<seq<byte>>, prot: Protection, random: seq<byte>) returns (out: seq<byte>)
    requires forall n :: n in numbers ==> |n| < 0x1000_0000
    requires prot.Encrypted? ==> InversePair(prot.cipher) && |random| >= 8
    ensures out == Blob(kt, prot, Secret(kt, numbers, prot, random[..PaddingLength(kt, numbers, prot)]))
  {
    hide U32, Payload, Front, Clear, StringBytes, Blob;
    var outblob := new StrBuf();
    PutFront(outblob, kt, prot);
    var lenpos := |outblob.contents|;
    PutClear(outblob, kt, numbers, prot, random);
    ghost var pad := random[..PaddingLength(kt, numbers, prot)];
    ghost var clear := Clear(kt, numbers, pad);
    var total := |outblob.contents|;
    PatchTotal(kt, prot, StringBytes(clear), total);
    outblob.Patch32(4, total);
    EncryptTail(kt, prot, total, clear);
    FinishBlob(kt, prot, total, clear, clear);
    if prot.Encrypted? {
      ClearBlocks(kt, numbers, prot, pad);
      FinishBlob(kt, prot, total, clear, prot.cipher.encrypt(clear));
      var ciphertext := outblob.contents[lenpos + 4..];
      outblob.contents := outblob.contents[..lenpos + 4] + prot.cipher.encrypt(ciphertext);
    }
    out := outblob.contents;
  }

  lemma FinishBlob(kt: KeyType, prot: Protection, total: int, clear: seq<byte>, secret: seq<byte>)
    requires total == |Front(kt, prot, 0)| + |StringBytes(clear)| && |secret| == |clear|
    ensures Front(kt, prot, total) + U32(|clear|) + secret == Blob(kt, prot, secret)
    ensures secret == clear ==> Front(kt, prot, total) + StringBytes(clear) == Blob(kt, prot, secret)
  {
    hide U32, Front;
    Assoc(Front(kt, prot, total), U32(|clear|), secret);
  }

  lemma PatchTotal(kt: KeyType, prot: Protection, rest: seq<byte>, total: int)
    ensures var s := Front(kt, prot, 0) + rest;
            |Front(kt, prot, 0)| == |Front(kt, prot, total)| >= 8 && s[..4] + U32(total) + s[8..] == Front(kt, prot, total) + rest
  {
    hide U32, StringBytes;
    var t, c := StringBytes(TypeName(kt)), StringBytes(CipherName(prot));
    Assoc(U32(MAGIC) + U32(0), t, c);
    Assoc(U32(MAGIC) + U32(0), t + c, rest);
    Assoc(U32(MAGIC) + U32(total), t, c);
    Assoc(U32(MAGIC) + U32(total), t + c, rest);
    PatchMiddle(U32(MAGIC), U32(0), t + c + rest, total);
  }

  lemma EncryptTail(kt: KeyType, prot: Protection, total: int, clear: seq<byte>)
    ensures var s, n := Front(kt, prot, total) + StringBytes(clear), |Front(kt, prot, total)| + 4;
            s[n..] == clear && s[..n] == Front(kt, prot, total) + U32(|clear|)
  {
    hide U32, Front;
    Assoc(Front(kt, prot, total), U32(|clear|), clear);
  }

  lemma ClearBlocks(kt: KeyType, numbers: seq<seq<byte>>, prot: Protection, pad: seq<byte>)
    requires prot.Encrypted? && |pad| == PaddingLength(kt, numbers, prot)
    ensures |Clear(kt, numbers, pad)| % 8 == 0
  {
    hide U32, StringBytes, Payload;
  }

  // ----- what a file holds, read part by part

  predicate Spells(t: seq<byte>, s: string) {
    |t| == |s| && forall i :: 0 <= i < |t| ==> t[i] == s[i] as int
  }

  function TakeIntegers(s: Source, n: nat): (r: (Source, seq<seq<byte>>))
    ensures |r.1| == n
    decreases n
  {
    if n == 0 then (s, []) else
      var (s1, x) := TakeMpSshcom(s);
      var (t, xs) := TakeIntegers(s1, n - 1);
      (t, [x] + xs)
  }

  /** Magic number, total length, type, cipher, and as one string the encrypted
      part: a string that holds the payload, and padding to whole blocks if there
      is a passphrase. */
  predicate FileHolds(blob: seq<byte>, prot: Protection, typename: string, payload: seq<byte>) {
    var (s1, magic) := TakeUint32(Source(blob, false));
    var (s2, total) := TakeUint32(s1);
    var (s3, name) := TakeString(s2);
    var (s4, ciphername) := TakeString(s3);
    var (s5, secret) := TakeString(s4);
    var clear := Decrypted(prot, secret);
    var (s6, inner) := TakeString(Source(clear, false));
    && magic == 0x3f6f_f9eb && total == |blob|
    && Spells(name, typename) && Spells(ciphername, if prot.Plain? then "none" else "3des-cbc")
    && s5 == Source([], false)
    && !s6.err && inner == payload
    && if prot.Plain? then s6.rest == [] else |s6.rest| < 8 && |clear| % 8 == 0
  }

  /** The same number, without leading zero bytes. */
  predicate SameNumber(x: seq<byte>, y: seq<byte>) {
    BigEndian(x) == BigEndian(y) && (|x| > 1 ==> x[0] != 0)
  }

  /** The reader holds exactly these numbers. */
  predicate HoldsNumbers(s: Source, ns: seq<seq<byte>>) {
    var (t, xs) := TakeIntegers(s, |ns|);
    t == Source([], false) && forall i :: 0 <= i < |ns| ==> SameNumber(xs[i], ns[i])
  }

  /** e, d, n, iqmp, q and p of the blobs. */
  predicate IsRsaPayload(pub: seq<byte>, priv: seq<byte>, payload: seq<byte>) {
    var a, b := TakeStrings(Source(pub, false), 3), TakeStrings(Source(priv, false), 4);
    HoldsNumbers(Source(payload, false), [a[1], b[0], a[2], b[3], b[2], b[1]])
  }

  /** A zero word, and p, g, q, y and x of the blobs. */
  predicate IsDsaPayload(pub: seq<byte>, priv: seq<byte>, payload: seq<byte>) {
    var a, b := TakeStrings(Source(pub, false), 5), TakeStrings(Source(priv, false), 1);
    var (s, zero) := TakeUint32(Source(payload, false));
    zero == 0 && HoldsNumbers(s, [a[1], a[3], a[2], a[4], b[0]])
  }

  const RSA_START := "if-modn{sign{rsa"
  const RSA_END := "-pkcs1-sha1},encrypt{rsa-pkcs1v2-oaep}}"
  const DSA_START := "dl-modp{sign{dsa"
  const DSA_END := "-nist-sha1},dh{plain}}"

  lemma PartsSpelled()
    ensures Spells(PREFIX_RSA, RSA_START) && Spells(REST_RSA, RSA_END)
    ensures Spells(PREFIX_DSA, DSA_START) && Spells(REST_DSA, DSA_END)
  {
  }

  lemma SpellsAppend(a: seq<byte>, b: seq<byte>, s: string, t: string)
    requires Spells(a, s) && Spells(b, t)
    ensures Spells(a + b, s + t)
  {
  }

  /** The names as they are spelled. */
  lemma NamesSpelled()
    ensures Spells(TypeName(Rsa), RSA_START + RSA_END) && Spells(TypeName(Dsa), DSA_START + DSA_END)
    ensures Spells(NONE, "none") && Spells(TRIPLE_DES, "3des-cbc")
    ensures Spells(SSH_RSA, "ssh-rsa") && Spells(SSH_DSS, "ssh-dss")
  {
    PartsSpelled();
    hide Spells;
    SpellsAppend(PREFIX_RSA, REST_RSA, RSA_START, RSA_END);
    SpellsAppend(PREFIX_DSA, REST_DSA, DSA_START, DSA_END);
    ShortNames();
  }

  lemma ShortNames()
    ensures Spells(NONE, "none") && Spells(TRIPLE_DES, "3des-cbc")
    ensures Spells(SSH_RSA, "ssh-rsa") && Spells(SSH_DSS, "ssh-dss")
  {
  }

  /** The bit count written is the length of the number in bits; zero counts as one
      bit unless it is written with no bytes. */
  lemma BitsAreLength(n: seq<byte>)
    ensures SshcomBits(n) == if BigEndian(n) == 0 then (if n == [] then 0 else 1) else NBits(BigEndian(n))
  {
    var t := SshcomBytes(n);
    SshcomMeaning(n);
    NoZeroLead(n);
    if t != [] {
      BitsOfBytes(t);
    }
  }

  lemma {:induction false} BitsOfBytes(t: seq<byte>)
    requires t != [] && (|t| > 1 ==> t[0] != 0)
    ensures BigEndian(t) == 0 ==> t == [0]
    ensures BigEndian(t) != 0 ==> NBits(BigEndian(t)) == 8 * (|t| - 1) + BitCount(t[0])
  {
    hide NBits, BitCount;
    var n := |t| - 1;
    if n == 0 {
      assert t[..0] == [];
      ByteBits(t[0]);
    } else {
      BitsOfBytes(t[..n]);
      var v := BigEndian(t);
      assert v / 256 == BigEndian(t[..n]);
      NBitsByte(v);
    }
  }

  lemma SameNumberWritten(n: seq<byte>)
    ensures SameNumber(SshcomBytes(n), n)
  {
    SshcomMeaning(n);
    NoZeroLead(n);
  }

  lemma {:induction false} NoZeroLead(n: seq<byte>)
    ensures |SshcomBytes(n)| > 1 ==> SshcomBytes(n)[0] != 0
  {
    if |n| > 1 && n[0] == 0 {
      NoZeroLead(n[1..]);
    }
  }

  lemma {:induction false} IntegersOf(numbers: seq<seq<byte>>)
    requires forall n :: n in numbers ==> |n| < 0x1000_0000
    ensures HoldsNumbers(Source(NumberList(numbers), false), numbers)
  {
    hide TakeMpSshcom, Number, SshcomBytes, SameNumber;
    if numbers != [] {
      assert numbers[0] in numbers;
      TakeNumbers(numbers);
      SameNumberWritten(numbers[0]);
      IntegersOf(numbers[1..]);
    }
  }

  lemma FileOf(kt: KeyType, numbers: seq<seq<byte>>, prot: Protection, padding: seq<byte>)
    requires Fits(kt, numbers) && |padding| == PaddingLength(kt, numbers, prot)
    requires prot.Encrypted? ==> InversePair(prot.cipher)
    requires |Blob(kt, prot, Secret(kt, numbers, prot, padding))| < TWO32
    ensures FileHolds(Blob(kt, prot, Secret(kt, numbers, prot, padding)), prot,
      if kt.Rsa? then RSA_START + RSA_END else DSA_START + DSA_END, Payload(kt, numbers))
  {
    hide TakeUint32, TakeString, StringBytes, U32, Payload, TypeName, CipherName, Spells, InversePair;
    var secret, clear := Secret(kt, numbers, prot, padding), Clear(kt, numbers, padding);
    SecretSize(kt, numbers, prot, padding);
    var total := |Front(kt, prot, 0)| + 4 + |secret|;
    var t, c := StringBytes(TypeName(kt)), StringBytes(CipherName(prot));
    FrontParts(kt, prot, total, secret);
    BlobSize(kt, prot, secret);
    TakeUint32Put(MAGIC, U32(total) + (t + (c + StringBytes(secret))));
    TakeUint32Put(total, t + (c + StringBytes(secret)));
    Names(kt, prot);
    NamesSpelled();
    TakeStringPut(TypeName(kt), c + StringBytes(secret));
    TakeStringPut(CipherName(prot), StringBytes(secret));
    TakeStringLast(secret);
    TakeStringPut(Payload(kt, numbers), padding);
    if prot.Encrypted? {
      ClearBlocks(kt, numbers, prot, padding);
    }
  }

  lemma FrontParts(kt: KeyType, prot: Protection, total: int, secret: seq<byte>)
    ensures var t, c, x := StringBytes(TypeName(kt)), StringBytes(CipherName(prot)), StringBytes(secret);
      Front(kt, prot, total) + x == U32(MAGIC) + (U32(total) + (t + (c + x)))
  {
    hide StringBytes, U32, TypeName, CipherName;
    var t, c, x := StringBytes(TypeName(kt)), StringBytes(CipherName(prot)), StringBytes(secret);
    Assoc(U32(MAGIC) + U32(total), t, c);
    Assoc(U32(MAGIC), U32(total), t + c);
    Assoc(U32(MAGIC), U32(total) + (t + c), x);
    Assoc(U32(total), t + c, x);
    Assoc(t, c, x);
  }

  lemma BlobSize(kt: KeyType, prot: Protection, secret: seq<byte>)
    ensures |Blob(kt, prot, secret)| == |Front(kt, prot, 0)| + 4 + |secret|
    ensures |Front(kt, prot, 0)| >= 16
  {
    hide U32;
  }

  lemma FitsFile(kt: KeyType, numbers: seq<seq<byte>>, prot: Protection, padding: seq<byte>)
    requires forall n :: n in numbers ==> |n| < 0x1000_0000
    requires |padding| == PaddingLength(kt, numbers, prot) && (prot.Encrypted? ==> InversePair(prot.cipher))
    requires |Blob(kt, prot, Secret(kt, numbers, prot, padding))| < TWO32
    ensures Fits(kt, numbers)
  {
    hide U32, Payload, Front;
    var clear := Clear(kt, numbers, padding);
    if prot.Encrypted? {
      ClearBlocks(kt, numbers, prot, padding);
    }
    BlobSize(kt, prot, Secret(kt, numbers, prot, padding));
  }

  lemma RsaPayloadOf(pub: seq<byte>, priv: seq<byte>)
    requires forall n :: n in RsaOrder(TakeRsa(pub, priv).0) ==> |n| < 0x1000_0000
    ensures IsRsaPayload(pub, priv, Payload(Rsa, RsaOrder(TakeRsa(pub, priv).0)))
  {
    hide TakeRsa, TakeStrings, HoldsNumbers, NumberList;
    var numbers := RsaOrder(TakeRsa(pub, priv).0);
    StringsOfRsa(pub, priv);
    IntegersOf(numbers);
    assert Payload(Rsa, numbers) == NumberList(numbers);
  }

  lemma RsaFileOf(pub: seq<byte>, priv: seq<byte>, prot: Protection, padding: seq<byte>)
    requires var numbers := RsaOrder(TakeRsa(pub, priv).0);
      && (forall n :: n in numbers ==> |n| < 0x1000_0000)
      && |padding| == PaddingLength(Rsa, numbers, prot) && (prot.Encrypted? ==> InversePair(prot.cipher))
      && |Blob(Rsa, prot, Secret(Rsa, numbers, prot, padding))| < TWO32
    ensures var numbers := RsaOrder(TakeRsa(pub, priv).0);
      FileHolds(Blob(Rsa, prot, Secret(Rsa, numbers, prot, padding)), prot, RSA_START + RSA_END, Payload(Rsa, numbers))
      && IsRsaPayload(pub, priv, Payload(Rsa, numbers))
  {
    hide *;
    var numbers := RsaOrder(TakeRsa(pub, priv).0);
    FitsFile(Rsa, numbers, prot, padding);
    FileOf(Rsa, numbers, prot, padding);
    RsaPayloadOf(pub, priv);
  }

  lemma DsaPayloadOf(pub: seq<byte>, priv: seq<byte>)
    requires forall n :: n in DsaOrder(TakeDsa(pub, priv).0) ==> |n| < 0x1000_0000
    ensures IsDsaPayload(pub, priv, Payload(Dsa, DsaOrder(TakeDsa(pub, priv).0)))
  {
    hide TakeDsa, TakeStrings, HoldsNumbers, NumberList, U32, TakeUint32;
    var numbers := DsaOrder(TakeDsa(pub, priv).0);
    StringsOfDsa(pub, priv);
    IntegersOf(numbers);
    TakeUint32Put(0, NumberList(numbers));
  }

  lemma DsaFileOf(pub: seq<byte>, priv: seq<byte>, prot: Protection, padding: seq<byte>)
    requires var numbers := DsaOrder(TakeDsa(pub, priv).0);
      && (forall n :: n in numbers ==> |n| < 0x1000_0000)
      && |padding| == PaddingLength(Dsa, numbers, prot) && (prot.Encrypted? ==> InversePair(prot.cipher))
      && |Blob(Dsa, prot, Secret(Dsa, numbers, prot, padding))| < TWO32
    ensures var numbers := DsaOrder(TakeDsa(pub, priv).0);
      FileHolds(Blob(Dsa, prot, Secret(Dsa, numbers, prot, padding)), prot, DSA_START + DSA_END, Payload(Dsa, numbers))
      && IsDsaPayload(pub, priv, Payload(Dsa, numbers))
  {
    hide *;
    var numbers := DsaOrder(TakeDsa(pub, priv).0);
    FitsFile(Dsa, numbers, prot, padding);
    FileOf(Dsa, numbers, prot, padding);
    DsaPayloadOf(pub, priv);
  }

  lemma PaddingBound(kt: KeyType, numbers: seq<seq<byte>>, prot: Protection)
    ensures PaddingLength(kt, numbers, prot) < 8 && (prot.Plain? ==> PaddingLength(kt, numbers, prot) == 0)
  {
  }

  // ----- the writers

  /** sshcom_write for RSA keys, from the key blobs. */
  method WriteRsa(pub: seq<byte>, priv: seq<byte>, prot: Protection, random: seq<byte>) returns (out: seq<byte>)
    requires var (k, ok) := TakeRsa(pub, priv); ok && forall n :: n in RsaOrder(k) ==> |n| < 0x1000_0000
    requires prot.Encrypted? ==> InversePair(prot.cipher) && |random| >= 8
    ensures var numbers := RsaOrder(TakeRsa(pub, priv).0);
            out == Blob(Rsa, prot, Secret(Rsa, numbers, prot, random[..PaddingLength(Rsa, numbers, prot)]))
    ensures |out| < TWO32 ==>
      exists payload :: FileHolds(out, prot, RSA_START + RSA_END, payload) && IsRsaPayload(pub, priv, payload)
  {
    hide TakeString, Blob, Secret, PaddingLength, InversePair, FileHolds, IsRsaPayload, Payload;
    var src := new BinarySource(pub);
    var name := src.GetString();
    var e := src.GetString();
    var n := src.GetString();
    src := new BinarySource(priv);
    var d := src.GetString();
    var p := src.GetString();
    var q := src.GetString();
    var iqmp := src.GetString();
    ghost var numbers := [e, d, n, iqmp, q, p];
    PaddingBound(Rsa, numbers, prot);
    out := Write(Rsa, [e, d, n, iqmp, q, p], prot, random);
    if |out| < TWO32 {
      RsaFileOf(pub, priv, prot, random[..PaddingLength(Rsa, numbers, prot)]);
    }
  }

  /** sshcom_write for DSA keys, from the key blobs. */
  method WriteDsa(pub: seq<byte>, priv: seq<byte>, prot: Protection, random: seq<byte>) returns (out: seq<byte>)
    requires var (k, ok) := TakeDsa(pub, priv); ok && forall n :: n in DsaOrder(k) ==> |n| < 0x1000_0000
    requires prot.Encrypted? ==> InversePair(prot.cipher) && |random| >= 8
    ensures var numbers := DsaOrder(TakeDsa(pub, priv).0);
            out == Blob(Dsa, prot, Secret(Dsa, numbers, prot, random[..PaddingLength(Dsa, numbers, prot)]))
    ensures |out| < TWO32 ==>
      exists payload :: FileHolds(out, prot, DSA_START + DSA_END, payload) && IsDsaPayload(pub, priv, payload)
  {
    hide TakeString, Blob, Secret, PaddingLength, InversePair, FileHolds, IsDsaPayload, Payload;
    var src := new BinarySource(pub);
    var name := src.GetString();
    var p := src.GetString();
    var q := src.GetString();
    var g := src.GetString();
    var y := src.GetString();
    src := new BinarySource(priv);
    var x := src.GetString();
    ghost var numbers := [p, g, q, y, x];
    PaddingBound(Dsa, numbers, prot);
    out := Write(Dsa, [p, g, q, y, x], prot, random);
    if |out| < TWO32 {
      DsaFileOf(pub, priv, prot, random[..PaddingLength(Dsa, numbers, prot)]);
    }
  }

  // ----- reading

  predicate HasPrefix(s: seq<byte>, prefix: seq<byte>) {
    |s| > |prefix| && s[..|prefix|] == prefix
  }

  /** The integers of an RSA payload, rearranged into the two blobs: the last two
      change places again. */
  function ParseRsa(s: Source, encrypted: bool): ReadResult {
    var (s1, e) := TakeMpSshcom(s);
    var (s2, d) := TakeMpSshcom(s1);
    var (s3, n) := TakeMpSshcom(s2);
    var (s4, u) := TakeMpSshcom(s3);
    var (s5, p) := TakeMpSshcom(s4);
    var (s6, q) := TakeMpSshcom(s5);
    if s6.err then Failure(encrypted) else
      Key(StringBytes(SSH_RSA) + StringBytes(MpContent(e)) + StringBytes(MpContent(n)),
          StringBytes(MpContent(d)) + StringBytes(MpContent(q)) + StringBytes(MpContent(p)) + StringBytes(MpContent(u)))
  }

  function ParseDsa(s: Source, encrypted: bool): ReadResult {
    var (s0, zero) := TakeUint32(s);
    var (s1, p) := TakeMpSshcom(s0);
    var (s2, g) := TakeMpSshcom(s1);
    var (s3, q) := TakeMpSshcom(s2);
    var (s4, y) := TakeMpSshcom(s3);
    var (s5, x) := TakeMpSshcom(s4);
    if zero != 0 || s5.err then Failure(encrypted) else
      Key(StringBytes(SSH_DSS) + StringBytes(MpContent(p)) + StringBytes(MpContent(q)) + StringBytes(MpContent(g)) + StringBytes(MpContent(y)),
          StringBytes(MpContent(x)))
  }

  /** The part after decryption: a string that holds the integers. */
  function ParsePayload(kt: KeyType, clear: seq<byte>, encrypted: bool): ReadResult {
    var (s, payload) := TakeString(Source(clear, false));
    if s.err then Failure(encrypted)
    else if kt.Rsa? then ParseRsa(Source(payload, false), encrypted)
    else ParseDsa(Source(payload, false), encrypted)
  }

  /** sshcom_read on the blob of the file; `cipher` is what the passphrase
      offered amounts to. */
  function Parse(blob: seq<byte>, cipher: Cipher): ReadResult {
    var (s1, magic) := TakeUint32(Source(blob, false));
    if magic != MAGIC then Malformed else
      var (s2, _) := TakeUint32(s1);
      var (s3, typename) := TakeString(s2);
      if !HasPrefix(typename, PREFIX_RSA) && !HasPrefix(typename, PREFIX_DSA) then Malformed else
        var kt := if HasPrefix(typename, PREFIX_RSA) then Rsa else Dsa;
        var (s4, ciphername) := TakeString(s3);
        if ciphername != NONE && ciphername != TRIPLE_DES then Malformed else
          var (s5, ciphertext) := TakeString(s4);
          var encrypted := ciphername == TRIPLE_DES;
          if ciphertext == [] || (encrypted && |ciphertext| % 8 != 0) then Malformed
          else ParsePayload(kt, if encrypted then cipher.decrypt(ciphertext) else ciphertext, encrypted)
  }

  method Read(blob: seq<byte>, cipher: Cipher) returns (r: ReadResult)
    ensures r == Parse(blob, cipher)
  {
    hide TakeUint32, TakeString, HasPrefix, ParsePayload, NONE, TRIPLE_DES, PREFIX_RSA, PREFIX_DSA;
    CiphersDiffer();
    var src := new BinarySource(blob);
    var magic := src.GetUint32();
    if magic != MAGIC {
      return Malformed;
    }
    var length := src.GetUint32();
    var str := src.GetString();
    var kt;
    if HasPrefix(str, PREFIX_RSA) {
      kt := Rsa;
    } else if HasPrefix(str, PREFIX_DSA) {
      kt := Dsa;
    } else {
      return Malformed;
    }
    str := src.GetString();
    var encrypted;
    if str == NONE {
      encrypted := false;
    } else if str == TRIPLE_DES {
      encrypted := true;
    } else {
      return Malformed;
    }
    var ciphertext := src.GetString();
    if ciphertext == [] {
      return Malformed;
    }
    if encrypted {
      if |ciphertext| % 8 != 0 {
        return Malformed;
      }
      ciphertext := cipher.decrypt(ciphertext);
    }
    r := ReadPayload(kt, ciphertext, encrypted);
  }

  lemma CiphersDiffer()
    ensures NONE != TRIPLE_DES
  {
    assert |NONE| != |TRIPLE_DES|;
  }

  method ReadPayload(kt: KeyType, clear: seq<byte>, encrypted: bool) returns (r: ReadResult)
    ensures r == ParsePayload(kt, clear, encrypted)
  {
    hide TakeString, ParseRsa, ParseDsa;
    var src := new BinarySource(clear);
    var str := src.GetString();
    if src.err {
      return if encrypted then WrongPassphrase else Malformed;
    }
    src := new BinarySource(str);
    if kt.Rsa? {
      r := ReadRsa(src, encrypted);
    } else {
      r := ReadDsa(src, encrypted);
    }
  }

  method ReadRsa(src: BinarySource, encrypted: bool) returns (r: ReadResult)
    requires src.Valid()
    modifies src
    ensures r == old(ParseRsa(src.Value(), encrypted))
  {
    hide TakeMpSshcom, StringBytes, MpContent;
    var e := GetMpSshcomAsString(src);
    var d := GetMpSshcomAsString(src);
    var n := GetMpSshcomAsString(src);
    var u := GetMpSshcomAsString(src);
    var p := GetMpSshcomAsString(src);
    var q := GetMpSshcomAsString(src);
    if src.err {
      return if encrypted then WrongPassphrase else Malformed;
    }
    var blob := new StrBuf();
    blob.PutString(SSH_RSA);
    assert blob.contents == StringBytes(SSH_RSA);
    PutMpSsh2FromString(blob, e);
    PutMpSsh2FromString(blob, n);
    var publen := |blob.contents|;
    ghost var pub := blob.contents;
    PutMpSsh2FromString(blob, d);
    PutMpSsh2FromString(blob, q);
    PutMpSsh2FromString(blob, p);
    PutMpSsh2FromString(blob, u);
    FourParts(pub, StringBytes(MpContent(d)), StringBytes(MpContent(q)), StringBytes(MpContent(p)), StringBytes(MpContent(u)));
    r := Key(blob.contents[..publen], blob.contents[publen..]);
  }

  lemma FourParts(a: seq<byte>, b: seq<byte>, c: seq<byte>, d: seq<byte>, e: seq<byte>)
    ensures (a + b + c + d + e)[..|a|] == a && (a + b + c + d + e)[|a|..] == b + c + d + e
  {
  }

  method ReadDsa(src: BinarySource, encrypted: bool) returns (r: ReadResult)
    requires src.Valid()
    modifies src
    ensures r == old(ParseDsa(src.Value(), encrypted))
  {
    hide TakeUint32, TakeMpSshcom, StringBytes, MpContent;
    var zero := src.GetUint32();
    if zero != 0 {
      return if encrypted then WrongPassphrase else Malformed;
    }
    var p := GetMpSshcomAsString(src);
    var g := GetMpSshcomAsString(src);
    var q := GetMpSshcomAsString(src);
    var y := GetMpSshcomAsString(src);
    var x := GetMpSshcomAsString(src);
    if src.err {
      return if encrypted then WrongPassphrase else Malformed;
    }
    var blob := new StrBuf();
    blob.PutString(SSH_DSS);
    assert blob.contents == StringBytes(SSH_DSS);
    PutMpSsh2FromString(blob, p);
    PutMpSsh2FromString(blob, q);
    PutMpSsh2FromString(blob, g);
    PutMpSsh2FromString(blob, y);
    var publen := |blob.contents|;
    ghost var pub := blob.contents;
    PutMpSsh2FromString(blob, x);
    SplitBlob(pub, StringBytes(MpContent(x)));
    r := Key(blob.contents[..publen], blob.contents[publen..]);
  }

  // ----- what the reader makes of any payload

  /** Each of xs is the canonical form of the number at the same place in ys. */
  predicate CanonicalForms(xs: seq<seq<byte>>, ys: seq<seq<byte>>) {
    |xs| == |ys| && forall i :: 0 <= i < |xs| ==> Canonical(xs[i]) && BigEndian(xs[i]) == BigEndian(ys[i])
  }

  function Contents(ys: seq<seq<byte>>): (xs: seq<seq<byte>>)
    ensures |xs| == |ys| && forall i :: 0 <= i < |ys| ==> xs[i] == MpContent(ys[i])
  {
    seq(|ys|, i requires 0 <= i < |ys| => MpContent(ys[i]))
  }

  lemma ContentsAreCanonical(ys: seq<seq<byte>>)
    ensures CanonicalForms(Contents(ys), ys)
  {
    hide MpContent, Canonical, BigEndian;
    forall i | 0 <= i < |ys| ensures Canonical(MpContent(ys[i])) && BigEndian(MpContent(ys[i])) == BigEndian(ys[i]) {
      MpContentMeaning(ys[i]);
    }
  }

  lemma NextInteger(s: Source, n: nat)
    ensures var (s1, x) := TakeMpSshcom(s);
      TakeIntegers(s, n + 1) == (TakeIntegers(s1, n).0, [x] + TakeIntegers(s1, n).1)
  {
  }

  /** Six numbers in whatever form they come: exactly when they can all be read they
      give a key, which is well formed, has canonical numbers, and takes them for e,
      d, n, iqmp, q and p. */
  lemma ParseRsaMeans(s: Source, encrypted: bool) returns (k: RsaFields)
    ensures var r, (t, ys) := ParseRsa(s, encrypted), TakeIntegers(s, 6);
      && (r.Key? <==> !t.err)
      && (!r.Key? ==> r == Failure(encrypted))
      && (r.Key? ==> r == Key(RsaPublic(k), RsaPrivate(k)) && CanonicalForms([k.e, k.d, k.n, k.iqmp, k.q, k.p], ys))
  {
    hide TakeMpSshcom, TakeIntegers, StringBytes, MpContent, Canonical, BigEndian;
    var (s1, e) := TakeMpSshcom(s);
    var (s2, d) := TakeMpSshcom(s1);
    var (s3, n) := TakeMpSshcom(s2);
    var (s4, u) := TakeMpSshcom(s3);
    var (s5, q) := TakeMpSshcom(s4);
    var (s6, p) := TakeMpSshcom(s5);
    NextInteger(s, 5);
    NextInteger(s1, 4);
    NextInteger(s2, 3);
    NextInteger(s3, 2);
    NextInteger(s4, 1);
    NextInteger(s5, 0);
    NoInteger(s6);
    k := RsaFields(MpContent(e), MpContent(n), MpContent(d), MpContent(p), MpContent(q), MpContent(u));
    var ys := [e, d, n, u, q, p];
    assert TakeIntegers(s, 6).1 == [e] + ([d] + ([n] + ([u] + ([q] + ([p] + [])))));
    assert TakeIntegers(s, 6).1 == ys;
    ContentsAreCanonical(ys);
    assert Contents(ys) == [k.e, k.d, k.n, k.iqmp, k.q, k.p];
    Assoc(StringBytes(SSH_RSA), StringBytes(k.e), StringBytes(k.n));
    Assoc(StringBytes(k.d), StringBytes(k.p), StringBytes(k.q) + StringBytes(k.iqmp));
    Assoc(StringBytes(k.d) + StringBytes(k.p), StringBytes(k.q), StringBytes(k.iqmp));
  }

  lemma NoInteger(s: Source)
    ensures TakeIntegers(s, 0) == (s, [])
  {
  }

  /** A zero word and five numbers: p, g, q, y and x. */
  lemma ParseDsaMeans(s: Source, encrypted: bool) returns (k: DsaFields)
    ensures var r, (s0, zero) := ParseDsa(s, encrypted), TakeUint32(s);
      var (t, ys) := TakeIntegers(s0, 5);
      && (r.Key? <==> zero == 0 && !t.err)
      && (!r.Key? ==> r == Failure(encrypted))
      && (r.Key? ==> r == Key(DsaPublic(k), DsaPrivate(k)) && CanonicalForms([k.p, k.g, k.q, k.y, k.x], ys))
  {
    hide TakeUint32, TakeMpSshcom, TakeIntegers, StringBytes, MpContent, Canonical, BigEndian;
    var s0 := TakeUint32(s).0;
    var (s1, p) := TakeMpSshcom(s0);
    var (s2, g) := TakeMpSshcom(s1);
    var (s3, q) := TakeMpSshcom(s2);
    var (s4, y) := TakeMpSshcom(s3);
    var (s5, x) := TakeMpSshcom(s4);
    NextInteger(s0, 4);
    NextInteger(s1, 3);
    NextInteger(s2, 2);
    NextInteger(s3, 1);
    NextInteger(s4, 0);
    NoInteger(s5);
    k := DsaFields(MpContent(p), MpContent(q), MpContent(g), MpContent(y), MpContent(x));
    var ys := [p, g, q, y, x];
    assert TakeIntegers(s0, 5).1 == [p] + ([g] + ([q] + ([y] + ([x] + []))));
    assert TakeIntegers(s0, 5).1 == ys;
    ContentsAreCanonical(ys);
    assert Contents(ys) == [k.p, k.g, k.q, k.y, k.x];
    var b0 := StringBytes(SSH_DSS);
    Assoc(b0, StringBytes(k.p), StringBytes(k.q) + (StringBytes(k.g) + StringBytes(k.y)));
    Assoc(b0 + StringBytes(k.p), StringBytes(k.q), StringBytes(k.g) + StringBytes(k.y));
    Assoc(b0 + StringBytes(k.p) + StringBytes(k.q), StringBytes(k.g), StringBytes(k.y));
  }

  lemma SpelledOnce(a: seq<byte>, b: seq<byte>, s: string)
    requires Spells(a, s)
    ensures Spells(b, s) <==> a == b
  {
  }

  predicate StartsWith(t: seq<byte>, s: string) {
    |t| > |s| && Spells(t[..|s|], s)
  }

  /** The parts before the payload are right: magic number, a type that goes on
      after one of the two beginnings, one of the two ciphers, and an encrypted part
      in whole blocks if there is a cipher. */
  predicate IsHeader(magic: uint32, typename: seq<byte>, ciphername: seq<byte>, secret: seq<byte>) {
    && magic == 0x3f6f_f9eb
    && (StartsWith(typename, "if-modn{sign{rsa") || StartsWith(typename, "dl-modp{sign{dsa"))
    && (Spells(ciphername, "none") || (Spells(ciphername, "3des-cbc") && |secret| % 8 == 0))
    && secret != []
  }

  /** On any blob: without a right header it is malformed; with one, what does not
      give a key is a wrong passphrase exactly under a cipher. */
  lemma ParseMeans(blob: seq<byte>, cipher: Cipher)
    ensures var (s1, magic) := TakeUint32(Source(blob, false));
      var (s3, typename) := TakeString(TakeUint32(s1).0);
      var (s4, ciphername) := TakeString(s3);
      var secret := TakeString(s4).1;
      var r, encrypted := Parse(blob, cipher), Spells(ciphername, "3des-cbc");
      && (!IsHeader(magic, typename, ciphername, secret) ==> r == Malformed)
      && (IsHeader(magic, typename, ciphername, secret) ==>
          && r == ParsePayload(if StartsWith(typename, "if-modn{sign{rsa") then Rsa else Dsa,
                    if encrypted then cipher.decrypt(secret) else secret, encrypted)
          && (!r.Key? ==> r == if encrypted then WrongPassphrase else Malformed))
  {
    hide TakeUint32, TakeString, HasPrefix, ParsePayload, NONE, TRIPLE_DES, PREFIX_RSA, PREFIX_DSA, Spells, StartsWith;
    var (s1, magic) := TakeUint32(Source(blob, false));
    var (s3, typename) := TakeString(TakeUint32(s1).0);
    var (s4, ciphername) := TakeString(s3);
    var secret := TakeString(s4).1;
    CiphersDiffer();
    ShortNames();
    SpelledOnce(NONE, ciphername, "none");
    SpelledOnce(TRIPLE_DES, ciphername, "3des-cbc");
    PrefixSpelled(typename);
    PayloadFails(Rsa, secret, false);
    PayloadFails(Dsa, secret, false);
    PayloadFails(Rsa, cipher.decrypt(secret), true);
    PayloadFails(Dsa, cipher.decrypt(secret), true);
  }

  lemma PrefixSpelled(t: seq<byte>)
    ensures HasPrefix(t, PREFIX_RSA) <==> StartsWith(t, "if-modn{sign{rsa")
    ensures HasPrefix(t, PREFIX_DSA) <==> StartsWith(t, "dl-modp{sign{dsa")
  {
    PartsSpelled();
    hide Spells;
    if |t| > 16 {
      SpelledOnce(PREFIX_RSA, t[..16], "if-modn{sign{rsa");
      SpelledOnce(PREFIX_DSA, t[..16], "dl-modp{sign{dsa");
    }
  }

  lemma PayloadFails(kt: KeyType, clear: seq<byte>, encrypted: bool)
    ensures var r := ParsePayload(kt, clear, encrypted);
      r.Key? || r == if encrypted then WrongPassphrase else Malformed
  {
    hide TakeString, TakeMpSshcom, TakeUint32, StringBytes, MpContent;
  }

  // ----- reading undoes writing

  predicate Fits(kt: KeyType, numbers: seq<seq<byte>>) {
    && (forall n :: n in numbers ==> |n| < 0x1000_0000)
    && |Payload(kt, numbers)| + 16 < TWO32
  }

  lemma TakeNumber(n: seq<byte>, tail: seq<byte>)
    requires |n| < 0x1000_0000
    ensures TakeMpSshcom(Source(Number(n) + tail, false)) == (Source(tail, false), SshcomBytes(n))
  {
    hide TakeMpSshcom, U32, SshcomBits, SshcomBytes;
    TakeMpSshcomPut(n, tail);
  }

  lemma TakeNumbers(numbers: seq<seq<byte>>)
    requires numbers != [] && |numbers[0]| < 0x1000_0000
    ensures TakeMpSshcom(Source(NumberList(numbers), false)) == (Source(NumberList(numbers[1..]), false), SshcomBytes(numbers[0]))
  {
    hide TakeMpSshcom, Number, SshcomBytes;
    TakeNumber(numbers[0], NumberList(numbers[1..]));
  }

  lemma NumberContent(n: seq<byte>)
    requires Canonical(n)
    ensures MpContent(SshcomBytes(n)) == n
  {
    hide MpContent, SshcomBytes;
    SshcomMeaning(n);
    MpContentOfCanonical(n);
  }

  lemma ParseRsaNumbers(k: RsaFields, encrypted: bool)
    requires CanonicalRsa(k)
    ensures ParseRsa(Source(NumberList(RsaOrder(k)), false), encrypted) == Key(RsaPublic(k), RsaPrivate(k))
  {
    hide TakeMpSshcom, NumberList, MpContent, SshcomBytes, Canonical, StringBytes;
    TakeNumbers([k.e, k.d, k.n, k.iqmp, k.q, k.p]);
    TakeNumbers([k.d, k.n, k.iqmp, k.q, k.p]);
    TakeNumbers([k.n, k.iqmp, k.q, k.p]);
    TakeNumbers([k.iqmp, k.q, k.p]);
    TakeNumbers([k.q, k.p]);
    TakeNumbers([k.p]);
    assert [k.e, k.d, k.n, k.iqmp, k.q, k.p][1..] == [k.d, k.n, k.iqmp, k.q, k.p];
    assert [k.d, k.n, k.iqmp, k.q, k.p][1..] == [k.n, k.iqmp, k.q, k.p];
    assert [k.n, k.iqmp, k.q, k.p][1..] == [k.iqmp, k.q, k.p];
    assert [k.iqmp, k.q, k.p][1..] == [k.q, k.p];
    assert [k.q, k.p][1..] == [k.p];
    NumberContent(k.e);
    NumberContent(k.d);
    NumberContent(k.n);
    NumberContent(k.iqmp);
    NumberContent(k.q);
    NumberContent(k.p);
    Assoc(StringBytes(SSH_RSA), StringBytes(k.e), StringBytes(k.n));
    Assoc(StringBytes(k.d), StringBytes(k.p), StringBytes(k.q) + StringBytes(k.iqmp));
    Assoc(StringBytes(k.d) + StringBytes(k.p), StringBytes(k.q), StringBytes(k.iqmp));
  }

  lemma ParseDsaNumbers(k: DsaFields, encrypted: bool)
    requires CanonicalDsa(k)
    ensures ParseDsa(Source(U32(0) + NumberList(DsaOrder(k)), false), encrypted) == Key(DsaPublic(k), DsaPrivate(k))
  {
    hide TakeUint32, TakeMpSshcom, NumberList, MpContent, SshcomBytes, Canonical, StringBytes, U32;
    TakeUint32Put(0, NumberList(DsaOrder(k)));
    TakeNumbers([k.p, k.g, k.q, k.y, k.x]);
    TakeNumbers([k.g, k.q, k.y, k.x]);
    TakeNumbers([k.q, k.y, k.x]);
    TakeNumbers([k.y, k.x]);
    TakeNumbers([k.x]);
    assert [k.p, k.g, k.q, k.y, k.x][1..] == [k.g, k.q, k.y, k.x];
    assert [k.g, k.q, k.y, k.x][1..] == [k.q, k.y, k.x];
    assert [k.q, k.y, k.x][1..] == [k.y, k.x];
    assert [k.y, k.x][1..] == [k.x];
    NumberContent(k.p);
    NumberContent(k.g);
    NumberContent(k.q);
    NumberContent(k.y);
    NumberContent(k.x);
    var b0 := StringBytes(SSH_DSS);
    Assoc(b0, StringBytes(k.p), StringBytes(k.q) + (StringBytes(k.g) + StringBytes(k.y)));
    Assoc(b0 + StringBytes(k.p), StringBytes(k.q), StringBytes(k.g) + StringBytes(k.y));
    Assoc(b0 + StringBytes(k.p) + StringBytes(k.q), StringBytes(k.g), StringBytes(k.y));
  }

  /** Reading a written blob reaches exactly the payload, whatever the padding. */
  lemma ParseBlob(kt: KeyType, numbers: seq<seq<byte>>, prot: Protection, padding: seq<byte>, cipher: Cipher)
    requires Fits(kt, numbers) && |padding| == PaddingLength(kt, numbers, prot)
    requires prot.Encrypted? ==> prot.cipher == cipher && InversePair(cipher)
    ensures Parse(Blob(kt, prot, Secret(kt, numbers, prot, padding)), cipher)
         == if kt.Rsa? then ParseRsa(Source(Payload(kt, numbers), false), prot.Encrypted?)
            else ParseDsa(Source(Payload(kt, numbers), false), prot.Encrypted?)
  {
    hide TakeUint32, TakeString, StringBytes, U32, Payload, ParseRsa, ParseDsa, TypeName, CipherName, HasPrefix;
    var secret, clear := Secret(kt, numbers, prot, padding), Clear(kt, numbers, padding);
    SecretSize(kt, numbers, prot, padding);
    var total := |Front(kt, prot, 0)| + 4 + |secret|;
    var t, c := StringBytes(TypeName(kt)), StringBytes(CipherName(prot));
    Assoc(U32(MAGIC) + U32(total), t, c);
    Assoc(U32(MAGIC), U32(total), t + c);
    Assoc(U32(MAGIC), U32(total) + (t + c), StringBytes(secret));
    Assoc(U32(total), t + c, StringBytes(secret));
    Assoc(t, c, StringBytes(secret));
    TakeUint32Put(MAGIC, U32(total) + (t + (c + StringBytes(secret))));
    TakeUint32Put(total, t + (c + StringBytes(secret)));
    Names(kt, prot);
    TakeStringPut(TypeName(kt), c + StringBytes(secret));
    TakeStringPut(CipherName(prot), StringBytes(secret));
    TakeStringLast(secret);
    TakeStringPut(Payload(kt, numbers), padding);
  }

  lemma Names(kt: KeyType, prot: Protection)
    ensures HasPrefix(TypeName(kt), PREFIX_RSA) <==> kt.Rsa?
    ensures HasPrefix(TypeName(kt), PREFIX_DSA) <==> kt.Dsa?
    ensures CipherName(prot) == (if prot.Plain? then NONE else TRIPLE_DES) && NONE != TRIPLE_DES
    ensures |TypeName(kt)| < TWO32 && |CipherName(prot)| < TWO32
  {
    assert PREFIX_RSA[0] != PREFIX_DSA[0];
    assert TypeName(kt)[..16] == Prefix(kt);
  }

  lemma SecretSize(kt: KeyType, numbers: seq<seq<byte>>, prot: Protection, padding: seq<byte>)
    requires Fits(kt, numbers) && |padding| == PaddingLength(kt, numbers, prot)
    requires prot.Encrypted? ==> InversePair(prot.cipher)
    ensures var secret := Secret(kt, numbers, prot, padding);
            && 4 <= |secret| < TWO32
            && (prot.Encrypted? ==> |secret| % 8 == 0 && prot.cipher.decrypt(secret) == Clear(kt, numbers, padding))
  {
    hide U32, Payload;
    if prot.Encrypted? {
      ClearBlocks(kt, numbers, prot, padding);
    }
  }

  /** Writing an RSA key and reading it back rebuilds both blobs byte for byte,
      with or without a passphrase, despite the exchanged primes and the padding. */
  lemma RsaRoundTrip(k: RsaFields, prot: Protection, padding: seq<byte>, cipher: Cipher)
    requires CanonicalRsa(k) && Fits(Rsa, RsaOrder(k)) && |padding| == PaddingLength(Rsa, RsaOrder(k), prot)
    requires prot.Encrypted? ==> prot.cipher == cipher && InversePair(cipher)
    ensures var numbers := RsaOrder(TakeRsa(RsaPublic(k), RsaPrivate(k)).0);
            Parse(Blob(Rsa, prot, Secret(Rsa, numbers, prot, padding)), cipher) == Key(RsaPublic(k), RsaPrivate(k))
  {
    hide TakeRsa, RsaPublic, RsaPrivate, Parse, Blob, Secret, PaddingLength, ParseRsa, NumberList, Fits;
    TakeRsaPut(k);
    ParseBlob(Rsa, RsaOrder(k), prot, padding, cipher);
    assert Payload(Rsa, RsaOrder(k)) == NumberList(RsaOrder(k));
    ParseRsaNumbers(k, prot.Encrypted?);
  }

  /** The same for a DSA key. */
  lemma DsaRoundTrip(k: DsaFields, prot: Protection, padding: seq<byte>, cipher: Cipher)
    requires CanonicalDsa(k) && Fits(Dsa, DsaOrder(k)) && |padding| == PaddingLength(Dsa, DsaOrder(k), prot)
    requires prot.Encrypted? ==> prot.cipher == cipher && InversePair(cipher)
    ensures var numbers := DsaOrder(TakeDsa(DsaPublic(k), DsaPrivate(k)).0);
            Parse(Blob(Dsa, prot, Secret(Dsa, numbers, prot, padding)), cipher) == Key(DsaPublic(k), DsaPrivate(k))
  {
    hide TakeDsa, DsaPublic, DsaPrivate, Parse, Blob, Secret, PaddingLength, ParseDsa, NumberList, Fits;
    TakeDsaPut(k);
    ParseBlob(Dsa, DsaOrder(k), prot, padding, cipher);
    ParseDsaNumbers(k, prot.Encrypted?);
  }
}
