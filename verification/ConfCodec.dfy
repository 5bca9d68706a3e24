/**
 The serialised form of a configuration (conf_serialise, conf_deserialise).

 `Load` is what deserialising does to a reader and a store.  Loading the bytes
 of one store into another overlays the two maps, stops at the end mark, and
 fails on every proper prefix.
 */
module ConfCodec {
  import opened Marshal
  import opened ConfKeys
  import opened MpInts

  const END_MARK := 0xFFFF_FFFF

  datatype Loaded = Loaded(ok: bool, src: Source, es: seq<Entry>)

  // ----- writing

  function SecondaryBytes(s: Secondary): seq<byte> {
    match s
    case Nothing => []
    case Number(i) => U32(i)
    case Name(n) => AscizBytes(n)
  }

  function ValueBytes(v: Value): seq<byte> {
    match v
    case Bool(b) => BoolBytes(b)
    case Int(i) => U32(i)
    case Str(s) => AscizBytes(s)
    case Filename(path) => AscizBytes(path)
    case Font(name, bold, height, charset) =>
      AscizBytes(name) + (U32(if bold then 1 else 0) + (U32(height) + U32(charset)))
  }

  function EntryBytes(e: Entry): seq<byte> {
    U32(e.key.primary) + (SecondaryBytes(e.key.secondary) + ValueBytes(e.value))
  }

  function StoreBytes(es: seq<Entry>): seq<byte> {
    if es == [] then U32(END_MARK) else EntryBytes(es[0]) + StoreBytes(es[1..])
  }

  // ----- reading

  function TakeSecondary(t: SubkeyType, s: Source): (r: (Source, Secondary))
    ensures SecondaryFits(t, r.1) && |r.0.rest| <= |s.rest|
  {
    match t
    case NoSubkey => (s, Nothing)
    case IntSubkey => var (s1, u) := TakeUint32(s); (s1, Number(ToInt(u)))
    case StrSubkey => var (s1, n) := TakeAsciz(s); (s1, Name(n))
  }

  function TakeFont(s: Source): (r: (Source, Value))
    ensures ValueFits(FontType, r.1) && |r.0.rest| <= |s.rest|
  {
    hide FromU32;
    var (s1, name) := TakeAsciz(s);
    var (s2, bold) := TakeUint32(s1);
    var (s3, height) := TakeUint32(s2);
    var (s4, charset) := TakeUint32(s3);
    (s4, Font(name, bold != 0, ToInt(height), ToInt(charset)))
  }

  function TakeValue(t: ValueType, s: Source): (r: (Source, Value))
    ensures ValueFits(t, r.1) && |r.0.rest| <= |s.rest|
  {
    hide FromU32, TakeFont;
    match t
    case BoolType => var (s1, b) := TakeBool(s); (s1, Bool(b))
    case IntType => var (s1, u) := TakeUint32(s); (s1, Int(ToInt(u)))
    case StrType => var (s1, n) := TakeAsciz(s); (s1, Str(n))
    case FilenameType => var (s1, n) := TakeAsciz(s); (s1, Filename(n))
    case FontType => TakeFont(s)
  }

  /** What follows the primary key of an entry. */
  function TakeBody(sch: Schema, p: nat, s: Source): (r: (Source, Entry))
    requires p < |sch.subkeys|
    ensures Fits(sch, r.1) && r.1.key.primary == p
    ensures |r.0.rest| <= |s.rest|
  {
    hide TakeSecondary, TakeValue, SecondaryFits, ValueFits;
    var (s1, sub) := TakeSecondary(sch.subkeys[p], s);
    var (s2, v) := TakeValue(sch.values[p], s1);
    (s2, Entry(Key(p, sub), v))
  }

  datatype Item = End(src: Source) | Bad(src: Source) | Got(src: Source, e: Entry)

  /** What one turn of the reading loop finds. */
  function TakeItem(sch: Schema, s: Source): (r: Item)
    ensures r.Got? ==> Fits(sch, r.e) && |r.src.rest| < |s.rest|
  {
    hide FromU32, TakeBody, Fits;
    var (s1, p) := TakeUint32(s);
    if s1.err then Bad(s1)
    else if p == END_MARK then End(s1)
    else if p >= |sch.subkeys| then Bad(s1)
    else
      var (s2, e) := TakeBody(sch, p, s1);
      if s2.err then Bad(s2) else Got(s2, e)
  }

  function Load(sch: Schema, s: Source, es: seq<Entry>): (r: Loaded)
    requires WellFormed(sch, es)
    ensures WellFormed(sch, r.es)
    decreases |s.rest|
  {
    hide TakeItem, Fits, WellFormed, Inserted;
    match TakeItem(sch, s)
    case Bad(s1) => Loaded(false, s1, es)
    case End(s1) => Loaded(true, s1, es)
    case Got(s1, e) =>
      InsertedOrdered(sch, es, e);
      Load(sch, s1, Inserted(sch, es, e))
  }

  // ----- each part is read back as it was written

  lemma TakeSecondaryPut(t: SubkeyType, x: Secondary, tail: seq<byte>)
    requires SecondaryFits(t, x)
    ensures TakeSecondary(t, Source(SecondaryBytes(x) + tail, false)) == (Source(tail, false), x)
  {
    hide TakeUint32, TakeAsciz, U32, ToInt;
    match x
    case Nothing => assert [] + tail == tail;
    case Number(i) => TakeUint32Put(i, tail); ToIntOfWord(i);
    case Name(n) => TakeAscizPut(n, tail);
  }

  lemma TakeFontPut(v: Value, tail: seq<byte>)
    requires ValueFits(FontType, v)
    ensures TakeFont(Source(ValueBytes(v) + tail, false)) == (Source(tail, false), v)
  {
    hide TakeUint32, TakeAsciz, U32, ToInt, AscizBytes;
    var b := if v.bold then 1 else 0;
    var t3 := U32(v.charset) + tail;
    var t2 := U32(v.height) + t3;
    var t1 := U32(b) + t2;
    assert ValueBytes(v) + tail == AscizBytes(v.name) + t1;
    TakeAscizPut(v.name, t1);
    TakeUint32Put(b, t2);
    TakeUint32Put(v.height, t3);
    ToIntOfWord(v.height);
    TakeUint32Put(v.charset, tail);
    ToIntOfWord(v.charset);
  }

  lemma TakeValuePut(t: ValueType, v: Value, tail: seq<byte>)
    requires ValueFits(t, v)
    ensures TakeValue(t, Source(ValueBytes(v) + tail, false)) == (Source(tail, false), v)
  {
    hide TakeUint32, TakeAsciz, TakeFont, U32, ToInt, AscizBytes;
    match v
    case Bool(b) =>
      assert ValueBytes(v) + tail == [if b then 1 else 0] + tail;
      assert (ValueBytes(v) + tail)[1..] == tail;
    case Int(i) => TakeUint32Put(i, tail); ToIntOfWord(i);
    case Str(s) => TakeAscizPut(s, tail);
    case Filename(s) => TakeAscizPut(s, tail);
    case Font(_, _, _, _) => TakeFontPut(v, tail);
  }

  lemma TakeBodyPut(sch: Schema, e: Entry, tail: seq<byte>)
    requires Fits(sch, e)
    ensures TakeBody(sch, e.key.primary, Source(SecondaryBytes(e.key.secondary) + (ValueBytes(e.value) + tail), false))
         == (Source(tail, false), e)
  {
    var t, u := sch.subkeys[e.key.primary], sch.values[e.key.primary];
    assert SecondaryFits(t, e.key.secondary);
    hide TakeSecondary, TakeValue, SecondaryBytes, ValueBytes, SecondaryFits, ValueFits;
    TakeSecondaryPut(t, e.key.secondary, ValueBytes(e.value) + tail);
    TakeValuePut(u, e.value, tail);
  }

  lemma {:induction false} MapOfFront(es: seq<Entry>)
    requires es != []
    ensures MapOf(es) == map[es[0].key := es[0].value] + MapOf(es[1..])
  {
    var init := es[..|es| - 1];
    if init != [] {
      MapOfFront(init);
      assert init[1..] == es[1..][..|es| - 2];
    }
  }

  lemma TakeItemPut(sch: Schema, e: Entry, tail: seq<byte>)
    requires Fits(sch, e)
    ensures TakeItem(sch, Source(EntryBytes(e) + tail, false)) == Got(Source(tail, false), e)
  {
    assert e.key.primary < |sch.subkeys|;
    hide TakeUint32, TakeBody, Fits, SecondaryBytes, ValueBytes, U32;
    var p := e.key.primary;
    var sub, val := SecondaryBytes(e.key.secondary), ValueBytes(e.value);
    var rest := sub + (val + tail);
    Assoc(U32(p), sub + val, tail);
    Assoc(sub, val, tail);
    TakeUint32Put(p, rest);
    assert p % TWO32 == p;
    TakeBodyPut(sch, e, tail);
  }

  lemma RestWellFormed(sch: Schema, es: seq<Entry>)
    requires WellFormed(sch, es) && es != []
    ensures Fits(sch, es[0]) && WellFormed(sch, es[1..])
  {
    hide Fits, KeyFits, Compare;
  }

  /** Deserialising a serialised store overlays it on what was there, and
      leaves the bytes that follow unread. */
  lemma {:induction false} LoadOverlays(sch: Schema, es: seq<Entry>, fs: seq<Entry>, tail: seq<byte>)
    requires WellFormed(sch, es) && WellFormed(sch, fs)
    ensures var r := Load(sch, Source(StoreBytes(fs) + tail, false), es);
      r.ok && r.src == Source(tail, false) && MapOf(r.es) == MapOf(es) + MapOf(fs)
    decreases |fs|
  {
    if fs == [] {
      hide TakeUint32, TakeBody, WellFormed;
      TakeUint32Put(END_MARK, tail);
    } else {
      hide TakeItem, Inserted, Fits, WellFormed, EntryBytes;
      var f := fs[0];
      RestWellFormed(sch, fs);
      var rest := StoreBytes(fs[1..]) + tail;
      Assoc(EntryBytes(f), StoreBytes(fs[1..]), tail);
      TakeItemPut(sch, f, rest);
      InsertedMap(sch, es, f);
      LoadOverlays(sch, Inserted(sch, es, f), fs[1..], tail);
      MapOfFront(fs);
      Overlay(MapOf(es), f, MapOf(fs[1..]));
    }
  }

  lemma Overlay(m: map<Key, Value>, e: Entry, n: map<Key, Value>)
    ensures m[e.key := e.value] + n == m + (map[e.key := e.value] + n)
  {
  }

  /** Into an empty store the very same store comes back. */
  lemma RoundTrip(sch: Schema, es: seq<Entry>, tail: seq<byte>)
    requires WellFormed(sch, es)
    ensures Load(sch, Source(StoreBytes(es) + tail, false), []) == Loaded(true, Source(tail, false), es)
  {
    hide Load, StoreBytes, Fits, KeyFits, Compare;
    LoadOverlays(sch, [], es, tail);
    var r := Load(sch, Source(StoreBytes(es) + tail, false), []);
    assert MapOf([]) + MapOf(es) == MapOf(es);
    StoreUnique(sch, r.es, es);
  }

  // ----- a reader that succeeds does not look past what it consumes

  lemma TakeUint32Extends(x: seq<byte>, z: seq<byte>)
    ensures var r := TakeUint32(Source(x, false));
      !r.0.err ==> TakeUint32(Source(x + z, false)) == (Source(r.0.rest + z, false), r.1)
  {
    if |x| >= 4 {
      assert (x + z)[..4] == x[..4] && (x + z)[4..] == x[4..] + z;
    }
  }

  lemma {:induction false} BeforeNulExtends(x: seq<byte>, z: seq<byte>)
    requires BeforeNul(x) < |x|
    ensures BeforeNul(x + z) == BeforeNul(x)
  {
    if x[0] != 0 {
      assert (x + z)[1..] == x[1..] + z;
      BeforeNulExtends(x[1..], z);
    }
  }

  lemma TakeAscizExtends(x: seq<byte>, z: seq<byte>)
    ensures var r := TakeAsciz(Source(x, false));
      !r.0.err ==> TakeAsciz(Source(x + z, false)) == (Source(r.0.rest + z, false), r.1)
  {
    var n := BeforeNul(x);
    if n < |x| {
      BeforeNulExtends(x, z);
      assert (x + z)[n + 1..] == x[n + 1..] + z && (x + z)[..n] == x[..n];
    }
  }

  lemma TakeSecondaryExtends(t: SubkeyType, x: seq<byte>, z: seq<byte>)
    ensures var r := TakeSecondary(t, Source(x, false));
      !r.0.err ==> TakeSecondary(t, Source(x + z, false)) == (Source(r.0.rest + z, false), r.1)
  {
    hide TakeUint32, TakeAsciz, ToInt;
    TakeUint32Extends(x, z);
    TakeAscizExtends(x, z);
  }

  lemma Sticky(s: Source)
    requires s.err
    ensures TakeUint32(s).0 == TakeAsciz(s).0 == TakeBool(s).0 == s
  {
  }

  lemma TakeFontExtends(x: seq<byte>, z: seq<byte>)
    ensures var r := TakeFont(Source(x, false));
      !r.0.err ==> TakeFont(Source(x + z, false)) == (Source(r.0.rest + z, false), r.1)
  {
    hide TakeUint32, TakeAsciz, ToInt;
    var r1 := TakeAsciz(Source(x, false)).0;
    var r2 := TakeUint32(r1).0;
    var r3 := TakeUint32(r2).0;
    var r4 := TakeUint32(r3).0;
    if !r4.err {
      if r1.err { Sticky(r1); }
      if r2.err { Sticky(r2); }
      if r3.err { Sticky(r3); }
      TakeAscizExtends(x, z);
      TakeUint32Extends(r1.rest, z);
      TakeUint32Extends(r2.rest, z);
      TakeUint32Extends(r3.rest, z);
    }
  }

  lemma TakeValueExtends(t: ValueType, x: seq<byte>, z: seq<byte>)
    ensures var r := TakeValue(t, Source(x, false));
      !r.0.err ==> TakeValue(t, Source(x + z, false)) == (Source(r.0.rest + z, false), r.1)
  {
    hide TakeUint32, TakeAsciz, TakeFont, ToInt;
    TakeUint32Extends(x, z);
    TakeAscizExtends(x, z);
    TakeFontExtends(x, z);
    if x != [] {
      assert (x + z)[1..] == x[1..] + z;
    }
  }

  lemma TakeValueSticky(t: ValueType, s: Source)
    requires s.err
    ensures TakeValue(t, s).0 == s
  {
    hide TakeUint32, TakeAsciz, TakeBool, ToInt;
    Sticky(s);
  }

  lemma TakeBodyExtends(sch: Schema, p: nat, x: seq<byte>, z: seq<byte>)
    requires p < |sch.subkeys|
    ensures var r := TakeBody(sch, p, Source(x, false));
      !r.0.err ==> TakeBody(sch, p, Source(x + z, false)) == (Source(r.0.rest + z, false), r.1)
  {
    hide TakeSecondary, TakeValue, SecondaryFits, ValueFits;
    var s1 := TakeSecondary(sch.subkeys[p], Source(x, false)).0;
    if s1.err {
      TakeValueSticky(sch.values[p], s1);
    } else {
      TakeSecondaryExtends(sch.subkeys[p], x, z);
      TakeValueExtends(sch.values[p], s1.rest, z);
    }
  }

  lemma TakeItemExtends(sch: Schema, x: seq<byte>, z: seq<byte>)
    ensures match TakeItem(sch, Source(x, false))
      case Bad(s1) => true
      case End(s1) => TakeItem(sch, Source(x + z, false)) == End(Source(s1.rest + z, false))
      case Got(s1, e) => TakeItem(sch, Source(x + z, false)) == Got(Source(s1.rest + z, false), e) && !s1.err
  {
    hide TakeUint32, TakeBody, Fits;
    var (s1, p) := TakeUint32(Source(x, false));
    TakeUint32Extends(x, z);
    if !s1.err && p != END_MARK && p < |sch.subkeys| {
      TakeBodyExtends(sch, p, s1.rest, z);
    }
  }

  lemma {:induction false} LoadExtends(sch: Schema, x: seq<byte>, z: seq<byte>, es: seq<Entry>)
    requires WellFormed(sch, es)
    ensures var r := Load(sch, Source(x, false), es);
      r.ok ==> Load(sch, Source(x + z, false), es) == Loaded(true, Source(r.src.rest + z, false), r.es)
    decreases |x|
  {
    hide TakeItem, Fits, WellFormed, Inserted;
    TakeItemExtends(sch, x, z);
    match TakeItem(sch, Source(x, false))
    case Bad(_) =>
    case End(_) =>
    case Got(s1, e) =>
      InsertedOrdered(sch, es, e);
      assert s1 == Source(s1.rest, false);
      LoadExtends(sch, s1.rest, z, Inserted(sch, es, e));
  }

  /** No proper prefix of a serialised store is accepted, whatever store it is
      read into. */
  lemma PrefixRejected(sch: Schema, es: seq<Entry>, n: nat, into: seq<Entry>)
    requires WellFormed(sch, es) && WellFormed(sch, into) && n < |StoreBytes(es)|
    ensures !Load(sch, Source(StoreBytes(es)[..n], false), into).ok
  {
    hide Load, StoreBytes, WellFormed;
    var all := StoreBytes(es);
    assert all[..n] + all[n..] == all == all + [];
    LoadOverlays(sch, into, es, []);
    LoadExtends(sch, all[..n], all[n..], into);
  }

  // ----- the layout in words

  /** Four bytes for an int, most significant first, a negative one as its value
      modulo 2^32. */
  predicate IsWord(s: seq<byte>, v: int) {
    |s| == 4 && BigEndian(s) == v % 0x1_0000_0000
  }

  /** The bytes of a string and a zero byte. */
  predicate IsTerminated(s: seq<byte>, n: seq<byte>) {
    |s| == |n| + 1 && s[..|n|] == n && s[|n|] == 0
  }

  predicate IsSecondary(s: seq<byte>, x: Secondary) {
    match x
    case Nothing => s == []
    case Number(i) => IsWord(s, i)
    case Name(n) => IsTerminated(s, n)
  }

  /** A font is its name and three words: one if bold, height and character set. */
  predicate IsValue(s: seq<byte>, v: Value) {
    match v
    case Bool(b) => |s| == 1 && s[0] == if b then 1 else 0
    case Int(i) => IsWord(s, i)
    case Str(n) => IsTerminated(s, n)
    case Filename(path) => IsTerminated(s, path)
    case Font(name, bold, height, charset) =>
      var n := |name| + 1;
      && |s| == n + 12 && IsTerminated(s[..n], name)
      && IsWord(s[n..n + 4], if bold then 1 else 0)
      && IsWord(s[n + 4..n + 8], height) && IsWord(s[n + 8..], charset)
  }

  lemma WordIs(v: int)
    ensures IsWord(U32(v), v)
  {
    WordsAreBigEndian(v, U32(v));
  }

  lemma ValueIs(v: Value)
    ensures IsValue(ValueBytes(v), v)
  {
    hide U32, IsWord;
    match v
    case Bool(_) =>
    case Int(i) => WordIs(i);
    case Str(_) =>
    case Filename(_) =>
    case Font(name, bold, height, charset) =>
      WordIs(if bold then 1 else 0);
      WordIs(height);
      WordIs(charset);
      var s, n := ValueBytes(v), |name| + 1;
      var b, h, c := U32(if bold then 1 else 0), U32(height), U32(charset);
      assert s == AscizBytes(name) + (b + (h + c));
      assert s[..n] == AscizBytes(name) && s[n..n + 4] == b && s[n + 4..n + 8] == h && s[n + 8..] == c;
  }

  /** An entry is the number of its option, its subkey and its value; the entries
      end with four bytes of all ones. */
  lemma EntryInWords(e: Entry) returns (a: seq<byte>, b: seq<byte>, c: seq<byte>)
    ensures EntryBytes(e) == a + (b + c)
    ensures IsWord(a, e.key.primary) && IsSecondary(b, e.key.secondary) && IsValue(c, e.value)
    ensures StoreBytes([]) == [255, 255, 255, 255]
  {
    hide IsWord;
    a, b, c := U32(e.key.primary), SecondaryBytes(e.key.secondary), ValueBytes(e.value);
    WordIs(e.key.primary);
    ValueIs(e.value);
    if e.key.secondary.Number? {
      WordIs(e.key.secondary.i);
    }
  }

  // ----- what is read, whoever wrote it

  lemma TakeWord(w: seq<byte>, tail: seq<byte>)
    requires |w| == 4
    ensures var (s, v) := TakeUint32(Source(w + tail, false)); s == Source(tail, false) && v == BigEndian(w)
  {
    WordsAreBigEndian(0, w);
    assert (w + tail)[..4] == w && (w + tail)[4..] == tail;
  }

  /** Any nonzero byte is true. */
  lemma TakeAnyBool(b: byte, tail: seq<byte>)
    ensures TakeValue(BoolType, Source([b] + tail, false)) == (Source(tail, false), Bool(b != 0))
  {
    assert ([b] + tail)[1..] == tail;
  }

  /** Any nonzero word makes a font bold; the other two are signed. */
  lemma TakeAnyFont(n: seq<byte>, b: seq<byte>, h: seq<byte>, c: seq<byte>, tail: seq<byte>)
    requires NulFree(n) && |b| == 4 && |h| == 4 && |c| == 4
    ensures var (s, v) := TakeValue(FontType, Source(AscizBytes(n) + (b + (h + (c + tail))), false));
      && s == Source(tail, false) && v.Font? && v.name == n && v.bold == (BigEndian(b) != 0)
      && v.height % 0x1_0000_0000 == BigEndian(h) && v.charset % 0x1_0000_0000 == BigEndian(c)
  {
    hide TakeUint32, TakeAsciz, AscizBytes, BigEndian, ToInt;
    TakeAscizPut(n, b + (h + (c + tail)));
    TakeWord(b, h + (c + tail));
    TakeWord(h, c + tail);
    TakeWord(c, tail);
  }

  /** Loading by the next word: all ones end it, an option that does not exist or an
      entry cut short makes it fail, and an entry is inserted; what was inserted
      before a failure stays. */
  lemma LoadByWord(sch: Schema, w: seq<byte>, tail: seq<byte>, es: seq<Entry>)
    requires WellFormed(sch, es) && |w| == 4
    ensures var p, r := BigEndian(w), Load(sch, Source(w + tail, false), es);
      && (p == 0xFFFF_FFFF ==> r == Loaded(true, Source(tail, false), es))
      && (p != 0xFFFF_FFFF && p >= |sch.subkeys| ==> r == Loaded(false, Source(tail, false), es))
      && (p < |sch.subkeys| && TakeBody(sch, p, Source(tail, false)).0.err ==> !r.ok && r.es == es)
  {
    hide TakeUint32, TakeBody, Inserted, BigEndian, WellFormed, Fits;
    TakeWord(w, tail);
  }

  lemma LoadOfNothing(sch: Schema, s: seq<byte>, es: seq<Entry>)
    requires WellFormed(sch, es) && |s| < 4
    ensures var r := Load(sch, Source(s, false), es); !r.ok && r.es == es
  {
    hide WellFormed, Fits;
  }
}
