/**
 Keys and the ordered store of a configuration (conf.c).

 A configuration is a tree ordered by `Compare`.  The tree is taken as its
 specification, a strictly increasing sequence of entries; the table that gives
 each option its subkey type and value type is a parameter.
 */
module ConfKeys {
  import opened Marshal

  datatype SubkeyType = NoSubkey | IntSubkey | StrSubkey
  datatype ValueType = BoolType | IntType | StrType | FilenameType | FontType

  datatype Table = Table(subkeys: seq<SubkeyType>, values: seq<ValueType>)
  {
    predicate Valid() {
      |subkeys| == |values| < TWO31
    }
  }

  type Schema = t: Table | t.Valid() witness Table([], [])

  datatype Secondary = Nothing | Number(i: int32) | Name(s: seq<byte>)
  datatype Key = Key(primary: nat, secondary: Secondary)

  datatype Value =
    | Bool(b: bool)
    | Int(i: int32)
    | Str(s: seq<byte>)
    | Filename(path: seq<byte>)
    | Font(name: seq<byte>, bold: bool, height: int32, charset: int32)

  datatype Entry = Entry(key: Key, value: Value)

  predicate SecondaryFits(t: SubkeyType, s: Secondary) {
    match t
    case NoSubkey => s.Nothing?
    case IntSubkey => s.Number?
    case StrSubkey => s.Name? && NulFree(s.s)
  }

  predicate KeyFits(sch: Schema, k: Key) {
    k.primary < |sch.subkeys| && SecondaryFits(sch.subkeys[k.primary], k.secondary)
  }

  predicate ValueFits(t: ValueType, v: Value) {
    match t
    case BoolType => v.Bool?
    case IntType => v.Int?
    case StrType => v.Str? && NulFree(v.s)
    case FilenameType => v.Filename? && NulFree(v.path)
    case FontType => v.Font? && NulFree(v.name)
  }

  predicate Fits(sch: Schema, e: Entry) {
    KeyFits(sch, e.key) && ValueFits(sch.values[e.key.primary], e.value)
  }

  predicate KeysFit(sch: Schema, es: seq<Entry>) {
    forall i :: 0 <= i < |es| ==> KeyFits(sch, es[i].key)
  }

  predicate ValuesFit(sch: Schema, es: seq<Entry>) {
    forall i :: 0 <= i < |es| ==> Fits(sch, es[i])
  }

  predicate Increasing(sch: Schema, es: seq<Entry>)
    requires KeysFit(sch, es)
  {
    forall i, j :: 0 <= i < j < |es| ==> Compare(sch, es[i].key, es[j].key) < 0
  }

  // ----- the order

  /** The sign of strcmp, on strings without their terminators. */
  function StrCmp(s: seq<byte>, t: seq<byte>): int {
    if s == [] then (if t == [] then 0 else -1)
    else if t == [] then 1
    else if s[0] < t[0] then -1
    else if s[0] > t[0] then 1
    else StrCmp(s[1..], t[1..])
  }

  /** conf_cmp. */
  function Compare(sch: Schema, a: Key, b: Key): int
    requires KeyFits(sch, a) && KeyFits(sch, b)
  {
    if a.primary < b.primary then -1
    else if a.primary > b.primary then 1
    else
      match sch.subkeys[a.primary]
      case IntSubkey =>
        if a.secondary.i < b.secondary.i then -1 else if a.secondary.i > b.secondary.i then 1 else 0
      case StrSubkey => StrCmp(a.secondary.s, b.secondary.s)
      case NoSubkey => 0
  }

  lemma {:induction false} StrCmpLaws(s: seq<byte>, t: seq<byte>)
    ensures StrCmp(s, t) == 0 <==> s == t
    ensures StrCmp(s, t) == 0 - StrCmp(t, s)
  {
    if s != [] && t != [] && s[0] == t[0] {
      StrCmpLaws(s[1..], t[1..]);
      assert s == [s[0]] + s[1..] && t == [t[0]] + t[1..];
    }
  }

  lemma {:induction false} StrCmpTransitive(s: seq<byte>, t: seq<byte>, u: seq<byte>)
    requires StrCmp(s, t) <= 0 && StrCmp(t, u) < 0
    ensures StrCmp(s, u) < 0
  {
    if s != [] && t != [] && u != [] && s[0] == t[0] == u[0] {
      StrCmpTransitive(s[1..], t[1..], u[1..]);
    }
  }

  /** s is a proper prefix of t, or smaller at the first byte where they differ. */
  predicate Before(s: seq<byte>, t: seq<byte>) {
    exists k :: 0 <= k <= |s| && BeforeAt(s, t, k)
  }

  predicate BeforeAt(s: seq<byte>, t: seq<byte>, k: nat)
    requires k <= |s|
  {
    k < |t| && s[..k] == t[..k] && (k == |s| || s[k] < t[k])
  }

  /** strcmp orders bytes ascending, and a string before its extensions. */
  lemma {:induction false} StrCmpMeans(s: seq<byte>, t: seq<byte>)
    ensures StrCmp(s, t) < 0 <==> Before(s, t)
    ensures StrCmp(s, t) > 0 <==> Before(t, s)
  {
    if s == [] || t == [] || s[0] != t[0] {
      assert BeforeAt(s, t, 0) <==> t != [] && (s == [] || s[0] < t[0]);
      assert BeforeAt(t, s, 0) <==> s != [] && (t == [] || t[0] < s[0]);
      DifferAtOnce(s, t);
      DifferAtOnce(t, s);
    } else {
      StrCmpMeans(s[1..], t[1..]);
      BeforeBehind(s, t);
      BeforeBehind(t, s);
    }
  }

  lemma DifferAtOnce(s: seq<byte>, t: seq<byte>)
    requires s == [] || t == [] || s[0] != t[0]
    ensures Before(s, t) ==> BeforeAt(s, t, 0)
  {
  }

  lemma BeforeBehind(s: seq<byte>, t: seq<byte>)
    requires s != [] && t != [] && s[0] == t[0]
    ensures Before(s, t) <==> Before(s[1..], t[1..])
  {
    if k :| 0 <= k <= |s| && BeforeAt(s, t, k) {
      assert s[1..][..k - 1] == s[..k][1..] && t[1..][..k - 1] == t[..k][1..];
      assert BeforeAt(s[1..], t[1..], k - 1);
    }
    if k :| 0 <= k <= |s[1..]| && BeforeAt(s[1..], t[1..], k) {
      assert s[..k + 1] == [s[0]] + s[1..][..k] && t[..k + 1] == [t[0]] + t[1..][..k];
      assert BeforeAt(s, t, k + 1);
    }
  }

  /** The comparison is strcmp, whatever the two names. */
  lemma OrderIsBytewise()
    ensures forall s, t :: Before(s, t) <==> StrCmp(s, t) < 0
    ensures forall s, t :: StrCmp(s, t) == 0 - StrCmp(t, s)
    ensures forall s, t :: StrCmp(s, t) == 0 <==> s == t
  {
    hide StrCmp, Before;
    forall s, t ensures Before(s, t) <==> StrCmp(s, t) < 0 {
      StrCmpMeans(s, t);
    }
    forall s, t ensures StrCmp(s, t) == 0 - StrCmp(t, s) && (StrCmp(s, t) == 0 <==> s == t) {
      StrCmpLaws(s, t);
    }
  }

  /** The order of keys: by option, then by number or by name. */
  lemma CompareMeans(sch: Schema, a: Key, b: Key)
    requires KeyFits(sch, a) && KeyFits(sch, b)
    ensures Compare(sch, a, b) < 0 <==>
      || a.primary < b.primary
      || (a.primary == b.primary && a.secondary.Number? && b.secondary.Number? && a.secondary.i < b.secondary.i)
      || (a.primary == b.primary && a.secondary.Name? && b.secondary.Name? && Before(a.secondary.s, b.secondary.s))
  {
    if a.secondary.Name? && b.secondary.Name? {
      StrCmpMeans(a.secondary.s, b.secondary.s);
    }
  }

  /** Well-typed keys are totally ordered, and only equal keys compare equal. */
  lemma CompareIsTotalOrder(sch: Schema, a: Key, b: Key, c: Key)
    requires KeyFits(sch, a) && KeyFits(sch, b) && KeyFits(sch, c)
    ensures Compare(sch, a, b) == 0 <==> a == b
    ensures Compare(sch, a, b) == 0 - Compare(sch, b, a)
    ensures Compare(sch, a, b) <= 0 && Compare(sch, b, c) < 0 ==> Compare(sch, a, c) < 0
    ensures Compare(sch, a, b) < 0 && Compare(sch, b, c) <= 0 ==> Compare(sch, a, c) < 0
  {
    if a.secondary.Name? && b.secondary.Name? {
      StrCmpLaws(a.secondary.s, b.secondary.s);
      if c.secondary.Name? {
        StrCmpLaws(b.secondary.s, c.secondary.s);
        if StrCmp(a.secondary.s, b.secondary.s) <= 0 && StrCmp(b.secondary.s, c.secondary.s) < 0 {
          StrCmpTransitive(a.secondary.s, b.secondary.s, c.secondary.s);
        }
      }
    }
  }

  // ----- the store

  predicate WellFormed(sch: Schema, es: seq<Entry>) {
    KeysFit(sch, es) && ValuesFit(sch, es) && Increasing(sch, es)
  }

  /** Where a key belongs: the number of leading entries with smaller keys. */
  function LowerBound(sch: Schema, es: seq<Entry>, k: Key): (n: nat)
    requires WellFormed(sch, es) && KeyFits(sch, k)
    ensures n <= |es|
    ensures forall i :: 0 <= i < n ==> Compare(sch, es[i].key, k) < 0
    ensures forall i :: n <= i < |es| ==> Compare(sch, es[i].key, k) >= 0
    decreases |es|
  {
    if es == [] then 0
    else
      var last := es[|es| - 1];
      if Compare(sch, last.key, k) < 0 then
        assert forall i :: 0 <= i < |es| - 1 ==> Compare(sch, es[i].key, k) < 0 by {
          forall i | 0 <= i < |es| - 1 ensures Compare(sch, es[i].key, k) < 0 {
            CompareIsTotalOrder(sch, es[i].key, last.key, k);
          }
        }
        |es|
      else
        LowerBound(sch, es[..|es| - 1], k)
  }

  /** The store read as a map. */
  ghost function MapOf(es: seq<Entry>): (m: map<Key, Value>) {
    if es == [] then map[] else MapOf(es[..|es| - 1])[es[|es| - 1].key := es[|es| - 1].value]
  }

  predicate At(es: seq<Entry>, i: int, k: Key) {
    0 <= i < |es| && es[i].key == k
  }

  lemma {:induction false} MapOfMeaning(sch: Schema, es: seq<Entry>, k: Key)
    requires WellFormed(sch, es)
    ensures k in MapOf(es) <==> exists i :: At(es, i, k)
    ensures forall i :: At(es, i, k) ==> MapOf(es)[k] == es[i].value
  {
    hide Fits, KeyFits, Compare;
    if es != [] {
      var last := |es| - 1;
      var init := es[..last];
      MapOfMeaning(sch, init, k);
      assert MapOf(es) == MapOf(init)[es[last].key := es[last].value];
      forall i | At(es, i, k)
        ensures k in MapOf(es) && MapOf(es)[k] == es[i].value
      {
        if i < last {
          assert At(init, i, k);
          CompareIsTotalOrder(sch, k, es[last].key, k);
        }
      }
      if k in MapOf(es) {
        if k == es[last].key {
          assert At(es, last, k);
        } else {
          var i :| At(init, i, k);
          assert At(es, i, k);
        }
      }
    }
  }

  /** A well-formed store whose entries are exactly those of m is m. */
  lemma MapOfIs(sch: Schema, es: seq<Entry>, m: map<Key, Value>)
    requires WellFormed(sch, es)
    requires forall i :: 0 <= i < |es| ==> es[i].key in m && m[es[i].key] == es[i].value
    requires forall k :: k in m ==> exists i :: At(es, i, k)
    ensures MapOf(es) == m
  {
    hide Fits, KeyFits, Compare, MapOf;
    forall k ensures k in MapOf(es) <==> k in m
      ensures k in m ==> MapOf(es)[k] == m[k]
    {
      MapOfMeaning(sch, es, k);
    }
  }

  /** add234 of a new entry, or the replacement of the entry with its key. */
  function Inserted(sch: Schema, es: seq<Entry>, e: Entry): seq<Entry>
    requires WellFormed(sch, es) && Fits(sch, e)
  {
    var n := LowerBound(sch, es, e.key);
    if At(es, n, e.key) then es[n := e] else es[..n] + [e] + es[n..]
  }

  function Removed(sch: Schema, es: seq<Entry>, k: Key): seq<Entry>
    requires WellFormed(sch, es) && KeyFits(sch, k)
  {
    var n := LowerBound(sch, es, k);
    if At(es, n, k) then es[..n] + es[n + 1..] else es
  }

  lemma InsertedOrdered(sch: Schema, es: seq<Entry>, e: Entry)
    requires WellFormed(sch, es) && Fits(sch, e)
    ensures WellFormed(sch, Inserted(sch, es, e))
  {
    assert KeyFits(sch, e.key);
    hide Fits, KeyFits, Compare;
    var n := LowerBound(sch, es, e.key);
    if !At(es, n, e.key) {
      Distinct(sch, es, e.key, n);
      forall i | n <= i < |es| ensures Compare(sch, e.key, es[i].key) < 0 {
        assert !At(es, i, e.key);
        CompareIsTotalOrder(sch, es[i].key, e.key, e.key);
      }
    }
  }

  /** Where the entries of the new store come from, and where the old ones go. */
  lemma InsertedEntries(sch: Schema, es: seq<Entry>, e: Entry)
    requires WellFormed(sch, es) && Fits(sch, e)
    ensures var r, n := Inserted(sch, es, e), LowerBound(sch, es, e.key);
      && n < |r| && r[n] == e
      && (forall i :: 0 <= i < |r| && i != n ==> r[i] in es)
      && (forall i :: 0 <= i < |es| && es[i].key != e.key ==> es[i] in r)
  {
    assert KeyFits(sch, e.key);
    hide Fits, KeyFits, Compare;
    var n := LowerBound(sch, es, e.key);
    var r := Inserted(sch, es, e);
    forall i | 0 <= i < |es| && es[i].key != e.key ensures es[i] in r {
      assert es[i] == r[if At(es, n, e.key) || i < n then i else i + 1];
    }
  }

  /** An entry of a well-formed store is what its map holds under the key. */
  lemma MapHolds(sch: Schema, es: seq<Entry>, x: Entry)
    requires WellFormed(sch, es) && x in es
    ensures x.key in MapOf(es) && MapOf(es)[x.key] == x.value
  {
    hide WellFormed, MapOf;
    var i :| 0 <= i < |es| && es[i] == x;
    assert At(es, i, x.key);
    MapOfMeaning(sch, es, x.key);
  }

  /** A key occurs only once. */
  lemma KeysDiffer(sch: Schema, es: seq<Entry>, i: nat, j: nat)
    requires WellFormed(sch, es) && i < |es| && j < |es| && i != j
    ensures es[i].key != es[j].key
  {
    CompareIsTotalOrder(sch, es[i].key, es[j].key, es[i].key);
    if i < j {
      Ordered(sch, es, i, j);
    } else {
      Ordered(sch, es, j, i);
    }
  }

  /** Insertion refines the map update, whether the key is new or not. */
  lemma InsertedMap(sch: Schema, es: seq<Entry>, e: Entry)
    requires WellFormed(sch, es) && Fits(sch, e)
    ensures WellFormed(sch, Inserted(sch, es, e))
    ensures MapOf(Inserted(sch, es, e)) == MapOf(es)[e.key := e.value]
  {
    assert KeyFits(sch, e.key);
    InsertedOrdered(sch, es, e);
    InsertedEntries(sch, es, e);
    var n := LowerBound(sch, es, e.key);
    var r := Inserted(sch, es, e);
    var m := MapOf(es)[e.key := e.value];
    hide WellFormed, Fits, KeyFits, MapOf, Inserted;
    forall i | 0 <= i < |r| ensures r[i].key in m && m[r[i].key] == r[i].value {
      if i != n {
        KeysDiffer(sch, r, i, n);
        MapHolds(sch, es, r[i]);
      }
    }
    forall k | k in m ensures exists i :: At(r, i, k) {
      if k == e.key {
        assert At(r, n, k);
      } else {
        MapOfMeaning(sch, es, k);
        var j :| At(es, j, k);
        var i :| 0 <= i < |r| && r[i] == es[j];
        assert At(r, i, k);
      }
    }
    MapOfIs(sch, r, m);
  }

  lemma RemovedOrdered(sch: Schema, es: seq<Entry>, k: Key)
    requires WellFormed(sch, es) && KeyFits(sch, k)
    ensures WellFormed(sch, Removed(sch, es, k))
  {
    hide Fits, KeyFits, Compare;
  }

  /** Deletion refines the removal of the key from the map. */
  lemma RemovedMap(sch: Schema, es: seq<Entry>, k: Key)
    requires WellFormed(sch, es) && KeyFits(sch, k)
    ensures WellFormed(sch, Removed(sch, es, k))
    ensures MapOf(Removed(sch, es, k)) == MapOf(es) - {k}
  {
    hide Fits, KeyFits, MapOf, Compare;
    var n := LowerBound(sch, es, k);
    var r := Removed(sch, es, k);
    var m := MapOf(es) - {k};
    RemovedOrdered(sch, es, k);
    Distinct(sch, es, k, n);
    forall i | 0 <= i < |r| ensures r[i].key in m && m[r[i].key] == r[i].value {
      var j := if r == es || i < n then i else i + 1;
      assert At(es, j, r[i].key);
      MapOfMeaning(sch, es, r[i].key);
    }
    forall q | q in m ensures exists i :: At(r, i, q) {
      MapOfMeaning(sch, es, q);
      var j :| At(es, j, q);
      assert At(r, if At(es, n, k) && j > n then j - 1 else j, q);
    }
    MapOfIs(sch, r, m);
  }

  lemma Ordered(sch: Schema, es: seq<Entry>, i: nat, j: nat)
    requires WellFormed(sch, es) && i < j < |es|
    ensures Compare(sch, es[i].key, es[j].key) < 0
  {
  }

  /** The key k can only be at its lower bound. */
  lemma Distinct(sch: Schema, es: seq<Entry>, k: Key, n: nat)
    requires WellFormed(sch, es) && KeyFits(sch, k) && n == LowerBound(sch, es, k)
    ensures forall i :: At(es, i, k) ==> i == n
  {
    forall i | At(es, i, k) ensures i == n {
      CompareIsTotalOrder(sch, k, k, k);
      if n < i {
        Ordered(sch, es, n, i);
      }
    }
  }

  /** Two stores with the same contents are the same sequence. */
  lemma {:induction false} StoreUnique(sch: Schema, es: seq<Entry>, fs: seq<Entry>)
    requires WellFormed(sch, es) && WellFormed(sch, fs)
    requires MapOf(es) == MapOf(fs)
    ensures es == fs
    decreases |es|
  {
    hide *;
    if es == [] || fs == [] {
      EmptyMap(sch, es, fs);
    } else {
      SameLast(sch, es, fs);
      StoreUnique(sch, es[..|es| - 1], fs[..|fs| - 1]);
      assert es == es[..|es| - 1] + [es[|es| - 1]] && fs == fs[..|fs| - 1] + [fs[|fs| - 1]];
    }
  }

  lemma EmptyMap(sch: Schema, es: seq<Entry>, fs: seq<Entry>)
    requires WellFormed(sch, es) && WellFormed(sch, fs) && MapOf(es) == MapOf(fs)
    ensures es == [] <==> fs == []
  {
    hide Fits, KeyFits, Compare;
    assert es != [] ==> es[|es| - 1].key in MapOf(es);
    assert fs != [] ==> fs[|fs| - 1].key in MapOf(fs);
  }

  lemma SameLast(sch: Schema, es: seq<Entry>, fs: seq<Entry>)
    requires WellFormed(sch, es) && WellFormed(sch, fs) && es != [] && fs != []
    requires MapOf(es) == MapOf(fs)
    ensures es[|es| - 1] == fs[|fs| - 1]
    ensures WellFormed(sch, es[..|es| - 1]) && WellFormed(sch, fs[..|fs| - 1])
    ensures MapOf(es[..|es| - 1]) == MapOf(fs[..|fs| - 1])
  {
    hide Fits, KeyFits, Compare;
    var e, f := es[|es| - 1], fs[|fs| - 1];
    LastIsGreatest(sch, es, fs);
    LastIsGreatest(sch, fs, es);
    CompareIsTotalOrder(sch, e.key, f.key, e.key);
    InitMap(sch, es);
    InitMap(sch, fs);
    assert e.value == MapOf(es)[e.key] == f.value;
  }

  lemma InitMap(sch: Schema, es: seq<Entry>)
    requires WellFormed(sch, es) && es != []
    ensures MapOf(es[..|es| - 1]) == MapOf(es) - {es[|es| - 1].key}
  {
    hide Fits, KeyFits, Compare;
    var init, last := es[..|es| - 1], es[|es| - 1].key;
    MapOfMeaning(sch, init, last);
    assert last !in MapOf(init) by {
      if last in MapOf(init) {
        var i :| At(init, i, last);
        CompareIsTotalOrder(sch, es[i].key, last, last);
      }
    }
  }

  lemma LastIsGreatest(sch: Schema, es: seq<Entry>, fs: seq<Entry>)
    requires WellFormed(sch, es) && WellFormed(sch, fs) && es != []
    requires MapOf(es) == MapOf(fs)
    ensures fs != [] && Compare(sch, es[|es| - 1].key, fs[|fs| - 1].key) <= 0
  {
    hide Fits, KeyFits, Compare, MapOf;
    var k := es[|es| - 1].key;
    MapOfMeaning(sch, es, k);
    assert At(es, |es| - 1, k);
    MapOfMeaning(sch, fs, k);
    var j :| At(fs, j, k);
    CompareIsTotalOrder(sch, k, k, k);
  }

  // ----- the string subkeys of one option

  /** The subkeys stored under primary key p, in store order. */
  ghost function Subkeys(es: seq<Entry>, p: nat): seq<seq<byte>> {
    if es == [] then []
    else
      var k := es[|es| - 1].key;
      Subkeys(es[..|es| - 1], p) + if k.primary == p && k.secondary.Name? then [k.secondary.s] else []
  }

  /** The entries under p occupy the positions from lo to hi. */
  ghost predicate Block(es: seq<Entry>, p: nat, lo: nat, hi: nat) {
    && lo <= hi <= |es|
    && (forall i :: 0 <= i < lo ==> es[i].key.primary < p)
    && (forall i :: lo <= i < hi ==> es[i].key.primary == p && es[i].key.secondary.Name?)
    && (forall i :: hi <= i < |es| ==> es[i].key.primary > p)
  }

  function First(p: nat): Key {
    Key(p, Name([]))
  }

  predicate HasNames(sch: Schema, p: nat) {
    p < |sch.subkeys| && sch.subkeys[p].StrSubkey? && sch.values[p].StrType?
  }

  lemma BlockExists(sch: Schema, es: seq<Entry>, p: nat) returns (hi: nat)
    requires WellFormed(sch, es) && HasNames(sch, p)
    ensures Block(es, p, LowerBound(sch, es, First(p)), hi)
  {
    var lo := LowerBound(sch, es, First(p));
    hi := lo;
    forall i | 0 <= i < lo ensures es[i].key.primary < p {
      assert Compare(sch, es[i].key, First(p)) < 0;
      assert KeyFits(sch, es[i].key);
    }
    forall i | lo <= i < |es| ensures es[i].key.primary >= p {
      assert Compare(sch, es[i].key, First(p)) >= 0;
    }
    while hi < |es| && es[hi].key.primary == p
      invariant lo <= hi <= |es|
      invariant forall i :: lo <= i < hi ==> es[i].key.primary == p && es[i].key.secondary.Name?
    {
      assert KeyFits(sch, es[hi].key);
      hi := hi + 1;
    }
    forall i | hi <= i < |es| ensures es[i].key.primary > p {
      if hi < i {
        Ordered(sch, es, hi, i);
      }
    }
  }

  lemma {:induction false} SubkeysAreBlock(es: seq<Entry>, p: nat, lo: nat, hi: nat)
    requires Block(es, p, lo, hi)
    ensures |Subkeys(es, p)| == hi - lo
    ensures forall i :: lo <= i < hi ==> es[i].key.secondary.s == Subkeys(es, p)[i - lo]
  {
    if es != [] {
      var last := |es| - 1;
      var init, k := es[..last], es[last].key;
      if lo == |es| {
        SubkeysAreBlock(init, p, last, last);
      } else if hi == |es| {
        SubkeysAreBlock(init, p, lo, last);
        assert Subkeys(es, p) == Subkeys(init, p) + [k.secondary.s];
      } else {
        SubkeysAreBlock(init, p, lo, hi);
      }
    }
  }

  /** The names that the map holds under p, in order. */
  ghost predicate IsListing(m: map<Key, Value>, p: nat, ss: seq<seq<byte>>) {
    Ascending(ss) && forall s :: s in ss <==> Key(p, Name(s)) in m
  }

  predicate Ascending(ss: seq<seq<byte>>) {
    forall i, j :: 0 <= i < j < |ss| ==> Before(ss[i], ss[j])
  }

  lemma SubkeysAscend(sch: Schema, es: seq<Entry>, p: nat)
    requires WellFormed(sch, es) && HasNames(sch, p)
    ensures Ascending(Subkeys(es, p))
  {
    var lo := LowerBound(sch, es, First(p));
    var hi := BlockExists(sch, es, p);
    SubkeysAreBlock(es, p, lo, hi);
    var ss := Subkeys(es, p);
    hide Subkeys, Fits, LowerBound, StrCmp, Before;
    forall i, j | 0 <= i < j < |ss| ensures Before(ss[i], ss[j]) {
      assert Compare(sch, es[lo + i].key, es[lo + j].key) < 0;
      CompareMeans(sch, es[lo + i].key, es[lo + j].key);
    }
  }

  lemma SubkeysMembers(sch: Schema, es: seq<Entry>, p: nat, s: seq<byte>)
    requires WellFormed(sch, es) && HasNames(sch, p)
    ensures s in Subkeys(es, p) <==> Key(p, Name(s)) in MapOf(es)
  {
    var lo := LowerBound(sch, es, First(p));
    var hi := BlockExists(sch, es, p);
    SubkeysAreBlock(es, p, lo, hi);
    var ss := Subkeys(es, p);
    var k := Key(p, Name(s));
    MapOfMeaning(sch, es, k);
    hide Subkeys, MapOf, KeyFits, Fits, LowerBound, Compare;
    if s in ss {
      var i :| 0 <= i < |ss| && ss[i] == s;
      assert At(es, lo + i, k);
    }
    if k in MapOf(es) {
      var j :| At(es, j, k);
      assert ss[j - lo] == s;
    }
  }

  /** Subkeys lists exactly the names the map holds under p, once each, in
      increasing order. */
  lemma SubkeysMeaning(sch: Schema, es: seq<Entry>, p: nat)
    requires WellFormed(sch, es) && HasNames(sch, p)
    ensures IsListing(MapOf(es), p, Subkeys(es, p))
  {
    assert IsListing(MapOf(es), p, Subkeys(es, p)) <==> (Ascending(Subkeys(es, p))
      && forall s :: s in Subkeys(es, p) <==> Key(p, Name(s)) in MapOf(es));
    hide *;
    SubkeysAscend(sch, es, p);
    forall s ensures s in Subkeys(es, p) <==> Key(p, Name(s)) in MapOf(es) {
      SubkeysMembers(sch, es, p, s);
    }
  }
}
