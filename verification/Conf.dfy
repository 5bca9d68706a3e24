/**
 The configuration object (conf.c): an ordered store updated in place.
 */
module Configuration {
  import opened Marshal
  import opened ConfKeys
  import ConfCodec
  import opened Options

  /** No name of m under p comes after `from`. */
  ghost predicate Exhausted(m: map<Key, Value>, p: nat, from: Option<seq<byte>>) {
    forall s :: Key(p, Name(s)) in m ==> from.Some? && !Before(from.value, s)
  }

  /** s is the least name of m under p that comes after `from`. */
  ghost predicate Next(m: map<Key, Value>, p: nat, from: Option<seq<byte>>, s: seq<byte>) {
    && Key(p, Name(s)) in m
    && (from.Some? ==> Before(from.value, s))
    && forall t :: Key(p, Name(t)) in m && (from.Some? ==> Before(from.value, t)) ==> !Before(t, s)
  }

  class Conf {
    const schema: Schema
    var entries: seq<Entry>

    constructor (schema: Schema)
      ensures Valid() && this.schema == schema && entries == []
    {
      this.schema := schema;
      entries := [];
    }

    ghost predicate Valid()
      reads this
    {
      WellFormed(schema, entries)
    }

    ghost function Map(): map<Key, Value>
      reads this
    {
      MapOf(entries)
    }

    /** add234: does nothing when the key is already there. */
    method Add(e: Entry) returns (present: bool)
      requires Valid() && Fits(schema, e)
      modifies this
      ensures Valid()
      ensures present == (e.key in old(Map()))
      ensures entries == if present then old(entries) else Inserted(schema, old(entries), e)
    {
      assert KeyFits(schema, e.key);
      hide Fits, KeyFits, Compare, MapOf;
      var n := LowerBound(schema, entries, e.key);
      present := At(entries, n, e.key);
      InsertedOrdered(schema, entries, e);
      MapOfMeaning(schema, entries, e.key);
      Distinct(schema, entries, e.key, n);
      if !present {
        entries := entries[..n] + [e] + entries[n..];
      }
    }

    /** del234 of the entry with key k, if there is one. */
    method Delete(k: Key)
      requires Valid() && KeyFits(schema, k)
      modifies this
      ensures Valid() && Map() == old(Map()) - {k}
    {
      hide Fits, KeyFits, Compare, MapOf;
      RemovedMap(schema, entries, k);
      var n := LowerBound(schema, entries, k);
      if At(entries, n, k) {
        entries := entries[..n] + entries[n + 1..];
      }
    }

    /** conf_insert: an entry already there under the key is taken out and the
        new one added. */
    method Insert(e: Entry)
      requires Valid() && Fits(schema, e)
      modifies this
      ensures Valid() && Map() == old(Map())[e.key := e.value]
      ensures entries == Inserted(schema, old(entries), e)
    {
      assert KeyFits(schema, e.key);
      hide Fits, KeyFits, MapOf, Inserted, WellFormed;
      InsertedMap(schema, entries, e);
      var present := Add(e);
      if present {
        Delete(e.key);
        Reinserted(schema, old(entries), entries, e);
        present := Add(e);
        assert !present;
      }
    }

    /** conf_del_str_str. */
    method DelStrStr(primary: nat, secondary: seq<byte>)
      requires Valid() && HasNames(schema, primary) && NulFree(secondary)
      modifies this
      ensures Valid() && Map() == old(Map()) - {Key(primary, Name(secondary))}
    {
      Delete(Key(primary, Name(secondary)));
    }

    /** conf_clear: delete the first entry until none is left. */
    method Clear()
      requires Valid()
      modifies this
      ensures Valid() && entries == []
    {
      hide Fits, KeyFits, Compare;
      while entries != []
        invariant Valid()
        decreases |entries|
      {
        entries := entries[1..];
      }
    }

    /** conf_copy_into.  Copying a configuration into itself empties it. */
    method CopyInto(source: Conf)
      requires Valid() && source.Valid() && source.schema == schema
      modifies this
      ensures Valid() && entries == if source == this then [] else old(source.entries)
    {
      hide Fits, KeyFits, Compare;
      Clear();
      var i := 0;
      while i < |source.entries|
        invariant source == this ==> entries == []
        invariant 0 <= i <= |source.entries|
        invariant source != this ==> source.entries == old(source.entries) && entries == source.entries[..i]
        invariant Valid()
      {
        AppendsLast(schema, source.entries, i);
        var present := Add(source.entries[i]);
        i := i + 1;
      }
    }

    /** The conf_get functions that take no subkey, or a string or integer one:
        the caller must know the key is present. */
    method Get(key: Key) returns (v: Value)
      requires Valid() && KeyFits(schema, key) && key in Map()
      ensures v == Map()[key] && ValueFits(schema.values[key.primary], v)
    {
      MapOfMeaning(schema, entries, key);
      var n := LowerBound(schema, entries, key);
      Distinct(schema, entries, key, n);
      v := entries[n].value;
    }

    /** conf_get_str_str_opt: NULL when the key is absent. */
    method GetStrStrOpt(primary: nat, secondary: seq<byte>) returns (r: Option<seq<byte>>)
      requires Valid() && HasNames(schema, primary) && NulFree(secondary)
      ensures r.Some? <==> Key(primary, Name(secondary)) in Map()
      ensures r.Some? ==> Map()[Key(primary, Name(secondary))] == Str(r.value)
    {
      var key := Key(primary, Name(secondary));
      MapOfMeaning(schema, entries, key);
      var n := LowerBound(schema, entries, key);
      Distinct(schema, entries, key, n);
      if At(entries, n, key) {
        assert Fits(schema, entries[n]);
        r := Some(entries[n].value.s);
      } else {
        r := None;
      }
    }

    /** conf_get_str_strs: the first name after `from`, or the first of all. */
    method GetStrStrs(primary: nat, from: Option<seq<byte>>) returns (r: Option<(seq<byte>, seq<byte>)>)
      requires Valid() && HasNames(schema, primary)
      requires from.Some? ==> NulFree(from.value)
      ensures r.None? ==> Exhausted(Map(), primary, from)
      ensures r.Some? ==> NulFree(r.value.0) && Next(Map(), primary, from, r.value.0)
      ensures r.Some? ==> Map()[Key(primary, Name(r.value.0))] == Str(r.value.1)
    {
      var key := Key(primary, Name(if from.Some? then from.value else []));
      var n := LowerBound(schema, entries, key);
      if from.Some? && At(entries, n, key) {
        n := n + 1;
      }
      NextInStore(schema, entries, primary, from, n);
      if n == |entries| || entries[n].key.primary != primary {
        r := None;
      } else {
        assert Fits(schema, entries[n]);
        r := Some((entries[n].key.secondary.s, entries[n].value.s));
      }
    }

    /** conf_get_str_nthstrkey. */
    method GetStrNthStrKey(primary: nat, n: int) returns (r: Option<seq<byte>>)
      requires Valid() && HasNames(schema, primary)
      ensures r == if 0 <= n < |Subkeys(entries, primary)| then Some(Subkeys(entries, primary)[n]) else None
      ensures exists ss ::
        IsListing(Map(), primary, ss) && r == if 0 <= n < |ss| then Some(ss[n]) else None
    {
      SubkeysMeaning(schema, entries, primary);
      var lo := LowerBound(schema, entries, First(primary));
      ghost var hi := BlockExists(schema, entries, primary);
      SubkeysAreBlock(entries, primary, lo, hi);
      if lo == |entries| || entries[lo].key.primary != primary {
        return None;
      }
      var at := lo + n;
      if at < 0 || at >= |entries| || entries[at].key.primary != primary {
        return None;
      }
      r := Some(entries[at].key.secondary.s);
    }

    /** The loop that walks the names under an option: every one, in order. */
    method Names(primary: nat) returns (names: seq<seq<byte>>)
      requires Valid() && HasNames(schema, primary)
      ensures names == Subkeys(entries, primary) && IsListing(Map(), primary, names)
    {
      hide MapOf, Subkeys, Fits, KeyFits, WellFormed, HasNames, StrCmp, Before;
      SubkeysMeaning(schema, entries, primary);
      ghost var ss := Subkeys(entries, primary);
      names := [];
      var from: Option<seq<byte>> := None;
      var next := GetStrStrs(primary, None);
      while next.Some?
        invariant |names| <= |ss| && names == ss[..|names|]
        invariant from == if names == [] then None else Some(names[|names| - 1])
        invariant from.Some? ==> NulFree(from.value)
        invariant next.None? ==> Exhausted(Map(), primary, from)
        invariant next.Some? ==> NulFree(next.value.0) && Next(Map(), primary, from, next.value.0)
        decreases |ss| - |names|, next.Some?
      {
        NextIsFollowing(Map(), primary, ss, |names|, next.value.0);
        names := names + [next.value.0];
        from := Some(next.value.0);
        next := GetStrStrs(primary, from);
      }
      ExhaustedIsAll(Map(), primary, ss, |names|);
    }

    /** conf_serialise. */
    method Serialise(sink: StrBuf)
      requires Valid()
      modifies sink
      ensures sink.contents == old(sink.contents) + ConfCodec.StoreBytes(entries)
    {
      hide WellFormed, ConfCodec.SecondaryBytes, ConfCodec.ValueBytes;
      var i := 0;
      while i < |entries|
        invariant 0 <= i <= |entries|
        invariant sink.contents + ConfCodec.StoreBytes(entries[i..]) == old(sink.contents) + ConfCodec.StoreBytes(entries)
      {
        var e := entries[i];
        assert entries[i..][1..] == entries[i + 1..];
        Assoc(sink.contents, ConfCodec.EntryBytes(e), ConfCodec.StoreBytes(entries[i + 1..]));
        ghost var start := sink.contents;
        sink.PutUint32(e.key.primary);
        PutSecondary(sink, e.key.secondary);
        PutValue(sink, e.value);
        assert sink.contents == start + ConfCodec.EntryBytes(e);
        i := i + 1;
      }
      sink.PutUint32(ConfCodec.END_MARK);
    }

    /** conf_deserialise. */
    method Deserialise(src: BinarySource) returns (ok: bool)
      requires Valid() && src.Valid()
      modifies this, src
      ensures Valid() && src.Valid()
      ensures ConfCodec.Loaded(ok, src.Value(), entries) == old(ConfCodec.Load(schema, src.Value(), entries))
    {
      hide ConfCodec.TakeItem, WellFormed, Fits, TakeUint32;
      while true
        invariant Valid() && src.Valid()
        invariant ConfCodec.Load(schema, src.Value(), entries) == old(ConfCodec.Load(schema, src.Value(), entries))
        decreases |src.Value().rest|
      {
        var got, e := ReadItem(schema, src);
        if got != Entered {
          return got == Ended;
        }
        InsertedMap(schema, entries, e);
        Insert(e);
      }
    }
  }

  datatype Outcome = Entered | Ended | Failed

  /** One turn of the reading loop, up to the insertion. */
  method ReadItem(schema: Schema, src: BinarySource) returns (outcome: Outcome, e: Entry)
    requires src.Valid()
    modifies src
    ensures src.Valid()
    ensures match old(ConfCodec.TakeItem(schema, src.Value()))
      case Bad(s) => outcome == Failed && src.Value() == s
      case End(s) => outcome == Ended && src.Value() == s
      case Got(s, f) => outcome == Entered && e == f && src.Value() == s
  {
    hide TakeUint32, ConfCodec.TakeSecondary, ConfCodec.TakeValue, SecondaryFits, ValueFits;
    e := Entry(Key(0, Nothing), Bool(false));
    var primary := src.GetUint32();
    if src.err {
      return Failed, e;
    }
    if primary == ConfCodec.END_MARK {
      return Ended, e;
    }
    if primary >= |schema.subkeys| {
      return Failed, e;
    }
    var sub := ReadSecondary(schema.subkeys[primary], src);
    var value := ReadValue(schema.values[primary], src);
    e := Entry(Key(primary, sub), value);
    outcome := if src.err then Failed else Entered;
  }

  method ReadSecondary(t: SubkeyType, src: BinarySource) returns (x: Secondary)
    requires src.Valid()
    modifies src
    ensures src.Valid() && (src.Value(), x) == old(ConfCodec.TakeSecondary(t, src.Value()))
  {
    hide TakeUint32, TakeAsciz, ToInt;
    match t
    case NoSubkey => x := Nothing;
    case IntSubkey => var u := src.GetUint32(); x := Number(ToInt(u));
    case StrSubkey => var n := src.GetAsciz(); x := Name(n);
  }

  method ReadValue(t: ValueType, src: BinarySource) returns (v: Value)
    requires src.Valid()
    modifies src
    ensures src.Valid() && (src.Value(), v) == old(ConfCodec.TakeValue(t, src.Value()))
  {
    hide TakeUint32, TakeAsciz, TakeBool, ToInt;
    match t
    case BoolType => var b := src.GetBool(); v := Bool(b);
    case IntType => var u := src.GetUint32(); v := Int(ToInt(u));
    case StrType => var n := src.GetAsciz(); v := Str(n);
    case FilenameType => var n := src.GetAsciz(); v := Filename(n);
    case FontType =>
      var name := src.GetAsciz();
      var bold := src.GetUint32();
      var height := src.GetUint32();
      var charset := src.GetUint32();
      v := Font(name, bold != 0, ToInt(height), ToInt(charset));
  }

  method PutSecondary(sink: StrBuf, s: Secondary)
    modifies sink
    ensures sink.contents == old(sink.contents) + ConfCodec.SecondaryBytes(s)
  {
    match s
    case Nothing =>
    case Number(i) => sink.PutUint32(i);
    case Name(n) => sink.PutData(AscizBytes(n));
  }

  method PutValue(sink: StrBuf, v: Value)
    modifies sink
    ensures sink.contents == old(sink.contents) + ConfCodec.ValueBytes(v)
  {
    hide U32, AscizBytes;
    match v
    case Bool(b) => sink.PutData(BoolBytes(b));
    case Int(i) => sink.PutUint32(i);
    case Str(s) => sink.PutData(AscizBytes(s));
    case Filename(path) => sink.PutData(AscizBytes(path));
    case Font(name, bold, height, charset) =>
      sink.PutData(AscizBytes(name));
      sink.PutUint32(if bold then 1 else 0);
      sink.PutUint32(height);
      sink.PutUint32(charset);
  }

  // ----- facts the methods use

  /** Taking the old entry out first does not change where the new one goes. */
  lemma Reinserted(sch: Schema, es: seq<Entry>, without: seq<Entry>, e: Entry)
    requires WellFormed(sch, es) && WellFormed(sch, without) && Fits(sch, e)
    requires MapOf(without) == MapOf(es) - {e.key}
    ensures Inserted(sch, without, e) == Inserted(sch, es, e)
  {
    hide Fits, WellFormed, Inserted;
    InsertedMap(sch, es, e);
    InsertedMap(sch, without, e);
    assert MapOf(without)[e.key := e.value] == MapOf(es)[e.key := e.value];
    StoreUnique(sch, Inserted(sch, without, e), Inserted(sch, es, e));
  }

  /** Adding the entries of a store in order appends each one. */
  lemma AppendsLast(sch: Schema, es: seq<Entry>, i: nat)
    requires WellFormed(sch, es) && i < |es|
    ensures WellFormed(sch, es[..i]) && Fits(sch, es[i]) && es[i].key !in MapOf(es[..i])
    ensures Inserted(sch, es[..i], es[i]) == es[..i + 1]
  {
    assert Fits(sch, es[i]) && KeyFits(sch, es[i].key);
    hide Fits, KeyFits, Compare;
    var k := es[i].key;
    MapOfMeaning(sch, es[..i], k);
    CompareIsTotalOrder(sch, k, k, k);
    forall j | 0 <= j < i ensures es[j].key != k {
      Ordered(sch, es, j, i);
    }
    forall j | 0 <= j < i ensures Compare(sch, es[..i][j].key, k) < 0 {
      Ordered(sch, es, j, i);
    }
    assert LowerBound(sch, es[..i], k) == i;
  }

  /** Where conf_get_str_strs looks is where the next name is. */
  lemma NextInStore(sch: Schema, es: seq<Entry>, p: nat, from: Option<seq<byte>>, n: nat)
    requires WellFormed(sch, es) && HasNames(sch, p) && (from.Some? ==> NulFree(from.value))
    requires var key := Key(p, Name(if from.Some? then from.value else []));
      var lo := LowerBound(sch, es, key);
      n == if from.Some? && At(es, lo, key) then lo + 1 else lo
    ensures n == |es| || es[n].key.primary != p ==> Exhausted(MapOf(es), p, from)
    ensures n < |es| && es[n].key.primary == p ==>
      es[n].key.secondary.Name? && Next(MapOf(es), p, from, es[n].key.secondary.s)
      && MapOf(es)[Key(p, es[n].key.secondary)] == es[n].value
  {
    var key := Key(p, Name(if from.Some? then from.value else []));
    BoundSplits(sch, es, p, key, n);
    OrderIsBytewise();
    hide Fits, MapOf, LowerBound, Before, StrCmp;
    forall s | Key(p, Name(s)) in MapOf(es)
      ensures (from.Some? && StrCmp(s, from.value) <= 0)
        || (n < |es| && es[n].key.primary == p && StrCmp(es[n].key.secondary.s, s) <= 0)
    {
      MapOfMeaning(sch, es, Key(p, Name(s)));
      var j :| At(es, j, Key(p, Name(s)));
      if n < j {
        Ordered(sch, es, n, j);
      }
      StrCmpLaws(s, s);
    }
    if n < |es| && es[n].key.primary == p {
      assert KeyFits(sch, es[n].key);
      var s := es[n].key.secondary.s;
      MapOfMeaning(sch, es, es[n].key);
      assert At(es, n, Key(p, Name(s)));
      if from.Some? {
        StrCmpLaws(s, from.value);
      }
    }
  }

  lemma NextIsFollowing(m: map<Key, Value>, p: nat, ss: seq<seq<byte>>, i: nat, s: seq<byte>)
    requires Ascending(ss) && i <= |ss|
    requires forall t :: t in ss <==> Key(p, Name(t)) in m
    requires Next(m, p, if i == 0 then None else Some(ss[i - 1]), s)
    ensures i < |ss| && s == ss[i]
  {
    hide Before;
    OrderIsBytewise();
    assert s in ss;
    var j :| 0 <= j < |ss| && ss[j] == s;
    assert ss[if i < |ss| then i else j] in ss;
    hide StrCmp;
  }

  lemma ExhaustedIsAll(m: map<Key, Value>, p: nat, ss: seq<seq<byte>>, i: nat)
    requires Ascending(ss) && i <= |ss|
    requires forall t :: t in ss <==> Key(p, Name(t)) in m
    requires Exhausted(m, p, if i == 0 then None else Some(ss[i - 1]))
    ensures i == |ss|
  {
    hide Exhausted, Ascending;
    if i < |ss| {
      MoreToCome(m, p, ss, i);
    }
  }

  lemma MoreToCome(m: map<Key, Value>, p: nat, ss: seq<seq<byte>>, i: nat)
    requires Ascending(ss) && i < |ss|
    requires forall t :: t in ss <==> Key(p, Name(t)) in m
    ensures !Exhausted(m, p, if i == 0 then None else Some(ss[i - 1]))
  {
    hide StrCmp, Before;
    assert ss[i] in ss;
  }

  lemma BoundSplits(sch: Schema, es: seq<Entry>, p: nat, key: Key, n: nat)
    requires WellFormed(sch, es) && KeyFits(sch, key)
    requires var lo := LowerBound(sch, es, key); n == lo || (At(es, lo, key) && n == lo + 1)
    ensures n <= |es|
    ensures forall j :: 0 <= j < n ==> Compare(sch, es[j].key, key) <= 0
    ensures forall j :: n <= j < |es| ==> Compare(sch, es[j].key, key) >= 0
    ensures n == LowerBound(sch, es, key) + 1 ==> forall j :: n <= j < |es| ==> Compare(sch, es[j].key, key) > 0
  {
    hide Fits, KeyFits, Compare;
    CompareIsTotalOrder(sch, key, key, key);
    forall j | n <= j < |es| && n == LowerBound(sch, es, key) + 1
      ensures Compare(sch, es[j].key, key) > 0
    {
      Ordered(sch, es, n - 1, j);
      CompareIsTotalOrder(sch, key, es[j].key, key);
    }
  }
}
