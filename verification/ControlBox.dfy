/**
 The array of control sets behind the configuration dialog (dialog.c).

 The sets of every panel, and of every group of panels below a common path
 prefix, stay next to each other however sets are added, so walking from the
 first set of a path finds them all.
 */
module ControlBoxes {
  import opened Marshal
  import opened ControlPaths
  import opened Options

  type Key = seq<seq<byte>>

  // ----- contiguity

  /** What lies between two keys shares at least what they share. */
  predicate Contiguous(ks: seq<Key>) {
    forall i, k, j :: 0 <= i <= k <= j < |ks| ==> Between(ks[i], ks[k], ks[j])
  }

  predicate Between(a: Key, b: Key, c: Key) {
    Common(a, c) <= Common(a, b) && Common(a, c) <= Common(b, c)
  }

  lemma {:induction false} CommonLaws(a: Key, b: Key, c: Key)
    ensures Common(a, b) == Common(b, a) && Common(a, a) == |a|
    ensures Common(a, c) >= if Common(a, b) < Common(b, c) then Common(a, b) else Common(b, c)
    ensures Common(a, b) == |a| == |b| ==> a == b
  {
    if a != [] {
      if b != [] && a[0] == b[0] && c != [] {
        CommonLaws(a[1..], b[1..], c[1..]);
      } else {
        CommonLaws(a[1..], if b == [] then [] else b[1..], []);
      }
      assert a == [a[0]] + a[1..];
      assert b != [] ==> b == [b[0]] + b[1..];
    }
  }

  /** Every group under a common prefix is an interval. */
  lemma GroupsAreIntervals(ks: seq<Key>, prefix: Key, i: nat, k: nat, j: nat)
    requires Contiguous(ks) && i <= k <= j < |ks|
    requires prefix <= ks[i] && prefix <= ks[j]
    ensures prefix <= ks[k]
  {
    SharedPrefix(prefix, ks[i], ks[j]);
    assert Between(ks[i], ks[k], ks[j]);
    CommonMeaning(ks[i], ks[k]);
    var n := |prefix|;
    var m := Common(ks[i], ks[k]);
    assert ks[k][..m][..n] == ks[i][..m][..n];
    assert ks[k][..n] == ks[k][..m][..n] && ks[i][..n] == ks[i][..m][..n];
  }

  lemma {:induction false} SharedPrefix(prefix: Key, a: Key, b: Key)
    requires prefix <= a && prefix <= b
    ensures Common(a, b) >= |prefix|
  {
    if prefix != [] {
      SharedPrefix(prefix[1..], a[1..], b[1..]);
    }
  }

  /** How deep x goes along a contiguous list rises to a peak and falls. */
  lemma Unimodal(ks: seq<Key>, x: Key, i: nat, k: nat, j: nat)
    requires Contiguous(ks) && i <= k <= j < |ks|
    ensures Common(x, ks[k]) >= Common(x, ks[i]) || Common(x, ks[k]) >= Common(x, ks[j])
  {
    hide Common;
    assert Between(ks[i], ks[k], ks[j]);
    CommonLaws(ks[i], x, ks[j]);
    CommonLaws(x, ks[i], ks[k]);
    CommonLaws(x, ks[i], x);
  }

  /** A place for x: depths do not fall before it nor rise after it, and it is not
      strictly inside a group that x does not belong to. */
  predicate Place(ks: seq<Key>, x: Key, at: nat) {
    && at <= |ks|
    && (forall i, k :: 0 <= i < k < at ==> Common(x, ks[i]) <= Common(x, ks[k]))
    && (forall k, j :: at <= k < j < |ks| ==> Common(x, ks[j]) <= Common(x, ks[k]))
    && (0 < at < |ks| ==> ks[at] == x || ks[at - 1] == x || Common(x, ks[at]) < Common(x, ks[at - 1]))
  }

  function Inserted<T>(s: seq<T>, x: T, at: nat): seq<T>
    requires at <= |s|
  {
    s[..at] + [x] + s[at..]
  }

  /** Inserting at such a place keeps every group contiguous. */
  lemma InsertKeeps(ks: seq<Key>, x: Key, at: nat)
    requires Contiguous(ks) && Place(ks, x, at)
    ensures Contiguous(Inserted(ks, x, at))
  {
    hide Common, Between, Contiguous;
    var ns := Inserted(ks, x, at);
    forall i, k, j | 0 <= i <= k <= j < |ns| ensures Between(ns[i], ns[k], ns[j]) {
      TripleKept(ks, x, at, i, k, j);
    }
    IsContiguous(ns);
  }

  lemma IsContiguous(ks: seq<Key>)
    requires forall i, k, j :: 0 <= i <= k <= j < |ks| ==> Between(ks[i], ks[k], ks[j])
    ensures Contiguous(ks)
  {
    hide Between;
  }

  function Old(i: nat, at: nat): nat {
    if i > at then i - 1 else i
  }

  lemma TripleKept(ks: seq<Key>, x: Key, at: nat, i: nat, k: nat, j: nat)
    requires Contiguous(ks) && Place(ks, x, at)
    requires i <= k <= j <= |ks|
    ensures var ns := Inserted(ks, x, at); Between(ns[i], ns[k], ns[j])
  {
    hide Common;
    var ns := Inserted(ks, x, at);
    CommonLaws(ns[i], ns[k], ns[j]);
    CommonLaws(ns[k], ns[j], ns[i]);
    CommonLaws(ns[j], ns[i], ns[k]);
    if i == k || k == j {
      CommonBounded(ns[i], ns[j]);
    } else if i != at && k != at && j != at {
      assert Between(ks[Old(i, at)], ks[Old(k, at)], ks[Old(j, at)]);
    } else if k == at {
      AcrossPlace(ks, x, at, i, j - 1);
    }
  }

  lemma CommonBounded(a: Key, b: Key)
    ensures Common(a, b) <= |a| && Common(a, b) <= |b|
  {
  }

  /** The keys on either side of the place share no more with each other than
      with x. */
  lemma AcrossPlace(ks: seq<Key>, x: Key, at: nat, i: nat, j: nat)
    requires Contiguous(ks) && Place(ks, x, at) && i < at <= j < |ks|
    ensures Between(ks[i], x, ks[j])
  {
    hide Common;
    var a, b, l, r := ks[i], ks[j], ks[at - 1], ks[at];
    assert Between(a, l, b) && Between(a, r, b) && Between(l, r, b) && Between(a, l, r);
    CommonLaws(x, l, a);
    CommonLaws(l, a, x);
    CommonLaws(a, x, l);
    CommonLaws(x, r, b);
    CommonLaws(r, b, x);
    CommonLaws(b, x, r);
    CommonLaws(x, l, r);
    CommonLaws(l, r, x);
    CommonLaws(r, x, l);
    CommonLaws(a, b, x);
    CommonLaws(x, a, b);
    CommonLaws(b, x, a);
  }

  // ----- the box

  /** A control set; a panel title has no name. */
  class ControlSet {
    const path: Path
    const name: Option<seq<byte>>
    const title: Option<seq<byte>>

    constructor (path: Path, name: Option<seq<byte>>, title: Option<seq<byte>>)
      ensures this.path == path && this.name == name && this.title == title
    {
      this.path, this.name, this.title := path, name, title;
    }
  }

  ghost function Keys(sets: seq<ControlSet>): (ks: seq<Key>)
    ensures |ks| == |sets| && forall i :: 0 <= i < |sets| ==> ks[i] == Keyed(sets[i].path)
  {
    seq(|sets|, i requires 0 <= i < |sets| => Keyed(sets[i].path))
  }

  ghost function Depth(path: Path, s: ControlSet): nat {
    Common(Keyed(path), Keyed(s.path))
  }

  predicate HasPath(sets: seq<ControlSet>, path: Path) {
    exists i :: 0 <= i < |sets| && sets[i].path == path
  }

  /** at is just after the last of the deepest matches for the path. */
  ghost predicate AfterDeepest(sets: seq<ControlSet>, path: Path, at: nat) {
    && at <= |sets|
    && (forall i, k :: 0 <= i < k < at ==> Depth(path, sets[i]) <= Depth(path, sets[k]))
    && (at < |sets| ==> at > 0 && forall i :: at <= i < |sets| ==> Depth(path, sets[i]) < Depth(path, sets[at - 1]))
  }

  predicate FirstWith(sets: seq<ControlSet>, path: Path, at: int) {
    0 <= at < |sets| && sets[at].path == path && forall i :: 0 <= i < at ==> sets[i].path != path
  }

  /** No two sets of one path have the same name. */
  predicate NamesDiffer(sets: seq<ControlSet>) {
    forall i, j :: 0 <= i < j < |sets| && sets[i].path == sets[j].path && sets[i].name.Some? ==>
      sets[i].name != sets[j].name
  }

  /** The positions from first on, all of sets with the path. */
  predicate Walked(sets: seq<ControlSet>, path: Path, first: int, visited: seq<nat>) {
    && 0 <= first && first + |visited| <= |sets|
    && forall k :: 0 <= k < |visited| ==> visited[k] == first + k && sets[visited[k]].path == path
  }

  predicate Stopped(sets: seq<ControlSet>, path: Path, at: nat) {
    at < |sets| ==> sets[at].path != path
  }

  class ControlBox {
    var ctrlsets: seq<ControlSet>

    constructor ()
      ensures Valid() && ctrlsets == []
    {
      ctrlsets := [];
    }

    ghost predicate Valid()
      reads this
    {
      Contiguous(Keys(ctrlsets)) && NamesDiffer(ctrlsets)
    }

    /** ctrl_find_set. */
    method FindSet(path: Path, start: bool) returns (index: nat)
      requires Valid()
      ensures index <= |ctrlsets|
      ensures if start && HasPath(ctrlsets, path) then FirstWith(ctrlsets, path, index)
        else AfterDeepest(ctrlsets, path, index)
    {
      hide NamesDiffer, Contiguous, Match, Depth, AfterDeepest;
      var last := 0;
      index := 0;
      while index < |ctrlsets|
        invariant index <= |ctrlsets|
        invariant last == if index == 0 then 0 else Match(path, ctrlsets[index - 1].path)
        invariant forall i, k :: 0 <= i < k < index ==> Depth(path, ctrlsets[i]) <= Depth(path, ctrlsets[k])
        invariant start ==> forall i :: 0 <= i < index ==> ctrlsets[i].path != path
      {
        var thisone := PathCompare(path, ctrlsets[index].path);
        DepthOrder(path, ctrlsets[index], ctrlsets[index]);
        if index > 0 {
          DepthOrder(path, ctrlsets[index], ctrlsets[index - 1]);
        }
        if (start && thisone == INT_MAX) || thisone < last {
          if thisone < last {
            DropIsPeak(ctrlsets, path, index);
            if start && thisone != INT_MAX {
              NoneAfterPeak(ctrlsets, path, index);
            }
          }
          return;
        }
        last := thisone;
        index := index + 1;
      }
      EndIsPlace(ctrlsets, path);
    }

    /** ctrl_find_path. */
    method FindPath(path: Path, from: int) returns (index: int)
      requires Valid() && from < |ctrlsets|
      ensures -1 <= index < |ctrlsets|
      ensures from < 0 ==> if HasPath(ctrlsets, path) then FirstWith(ctrlsets, path, index) else index == -1
      ensures from >= 0 ==>
        index == if from + 1 < |ctrlsets| && ctrlsets[from + 1].path == path then from + 1 else -1
    {
      if from < 0 {
        index := FindSet(path, true);
      } else {
        index := from + 1;
      }
      if index < |ctrlsets| && path == ctrlsets[index].path {
        return;
      }
      index := -1;
    }

    /** The walk over a panel: every set with the path, once each, in order. */
    method Visit(path: Path) returns (visited: seq<nat>)
      requires Valid()
      ensures forall i :: i in visited <==> 0 <= i < |ctrlsets| && ctrlsets[i].path == path
      ensures forall k, l :: 0 <= k < l < |visited| ==> visited[k] < visited[l]
    {
      hide NamesDiffer, Contiguous;
      visited := [];
      var index := FindPath(path, -1);
      ghost var first := index;
      while index >= 0
        invariant first < 0 ==> index == -1 && visited == [] && !HasPath(ctrlsets, path)
        invariant first >= 0 ==> FirstWith(ctrlsets, path, first) && Walked(ctrlsets, path, first, visited)
        invariant index >= 0 ==> first >= 0 && index == first + |visited| < |ctrlsets| && ctrlsets[index].path == path
        invariant first >= 0 && index < 0 ==> visited != [] && Stopped(ctrlsets, path, first + |visited|)
        decreases |ctrlsets| - |visited|, index + 1
      {
        visited := visited + [index];
        index := FindPath(path, index);
      }
      if first >= 0 {
        WalkedAll(ctrlsets, path, first, visited);
      }
    }

    /** ctrl_settitle: the title goes before the other sets of its path. */
    method SetTitle(path: Path, title: seq<byte>) returns (s: ControlSet, ghost at: nat)
      requires Valid()
      modifies this
      ensures Valid() && fresh(s) && s.path == path && s.name.None? && s.title == Some(title)
      ensures at <= |old(ctrlsets)| && ctrlsets == Inserted(old(ctrlsets), s, at)
      ensures if HasPath(old(ctrlsets), path) then FirstWith(old(ctrlsets), path, at)
        else AfterDeepest(old(ctrlsets), path, at)
    {
      var index := FindSet(path, true);
      at := index;
      s := new ControlSet(path, None, Some(title));
      PlaceFound(ctrlsets, path, index);
      AddKeeps(ctrlsets, s, index);
      ctrlsets := ctrlsets[..index] + [s] + ctrlsets[index..];
    }

    /** ctrl_getset: the set of that path and name, made if there is none. */
    method GetSet(path: Path, name: seq<byte>, title: Option<seq<byte>>) returns (s: ControlSet, ghost at: nat)
      requires Valid()
      modifies this
      ensures Valid() && s.path == path && s.name == Some(name)
      ensures s in old(ctrlsets) ==> ctrlsets == old(ctrlsets)
      ensures s !in old(ctrlsets) ==>
        && (forall t :: t in old(ctrlsets) && t.path == path ==> t.name != Some(name))
        && fresh(s) && s.title == title
        && at <= |old(ctrlsets)| && ctrlsets == Inserted(old(ctrlsets), s, at)
        && AfterDeepest(old(ctrlsets), path, at)
    {
      var index := FindSet(path, true);
      ghost var first := index;
      ghost var has := HasPath(ctrlsets, path);
      at := index;
      while index < |ctrlsets| && ctrlsets[index].path == path
        invariant first <= index <= |ctrlsets|
        invariant !has ==> index == first
        invariant forall i :: first <= i < index ==> ctrlsets[i].path == path && ctrlsets[i].name != Some(name)
        invariant has ==> FirstWith(ctrlsets, path, first)
      {
        if ctrlsets[index].name == Some(name) {
          s := ctrlsets[index];
          return;
        }
        index := index + 1;
      }
      at := index;
      if has {
        RunEnd(ctrlsets, path, first, index);
        forall i | 0 <= i < |ctrlsets| && ctrlsets[i].path == path ensures ctrlsets[i].name != Some(name) {
          RunIsWhole(ctrlsets, path, first, index, i);
        }
      } else {
        PlaceFound(ctrlsets, path, index);
      }
      s := new ControlSet(path, Some(name), title);
      AddKeeps(ctrlsets, s, index);
      ctrlsets := ctrlsets[..index] + [s] + ctrlsets[index..];
    }
  }

  // ----- facts the methods use

  /** Comparing by ctrl_path_compare is comparing depths. */
  lemma DepthOrder(path: Path, s: ControlSet, t: ControlSet)
    ensures Match(path, s.path) < Match(path, t.path) <==> Depth(path, s) < Depth(path, t)
    ensures Match(path, s.path) == INT_MAX <==> s.path == path
    ensures s.path == path <==> Depth(path, s) == |Keyed(path)|
    ensures Match(path, s.path) >= 0
  {
    MatchIsCommon(path, s.path);
    MatchIsCommon(path, t.path);
    assert Common(Keyed(path), Keyed(s.path)) <= |Keyed(path)|;
    assert Common(Keyed(path), Keyed(t.path)) <= |Keyed(path)|;
  }

  lemma DepthUnimodal(sets: seq<ControlSet>, path: Path, i: nat, k: nat, j: nat)
    requires Contiguous(Keys(sets)) && i <= k <= j < |sets|
    ensures Depth(path, sets[k]) >= Depth(path, sets[i]) || Depth(path, sets[k]) >= Depth(path, sets[j])
  {
    hide Common, Contiguous;
    Unimodal(Keys(sets), Keyed(path), i, k, j);
  }

  /** The first drop in depth is after the last of the deepest. */
  lemma DropIsPeak(sets: seq<ControlSet>, path: Path, at: nat)
    requires Contiguous(Keys(sets)) && 0 < at < |sets|
    requires Depth(path, sets[at]) < Depth(path, sets[at - 1])
    requires forall i, k :: 0 <= i < k < at ==> Depth(path, sets[i]) <= Depth(path, sets[k])
    ensures AfterDeepest(sets, path, at)
  {
    hide Contiguous, Depth;
    forall i | at <= i < |sets| ensures Depth(path, sets[i]) < Depth(path, sets[at - 1]) {
      DepthUnimodal(sets, path, at - 1, at, i);
    }
  }

  lemma EndIsPlace(sets: seq<ControlSet>, path: Path)
    requires forall i, k :: 0 <= i < k < |sets| ==> Depth(path, sets[i]) <= Depth(path, sets[k])
    ensures AfterDeepest(sets, path, |sets|)
  {
  }

  /** A path passed over before the peak is nowhere. */
  lemma NoneAfterPeak(sets: seq<ControlSet>, path: Path, at: nat)
    requires AfterDeepest(sets, path, at) && at < |sets|
    requires forall i :: 0 <= i < at ==> sets[i].path != path
    ensures !HasPath(sets, path)
  {
    hide Depth;
    forall i | at <= i < |sets| ensures sets[i].path != path {
      if sets[i].path == path {
        ExactIsDeepest(path, sets[i], sets[at - 1]);
      }
    }
  }

  /** Just after the sets that have the path exactly. */
  lemma RunEnd(sets: seq<ControlSet>, path: Path, first: nat, end: nat)
    requires Contiguous(Keys(sets)) && FirstWith(sets, path, first) && first < end <= |sets|
    requires forall i :: first <= i < end ==> sets[i].path == path
    requires end < |sets| ==> sets[end].path != path
    ensures AfterDeepest(sets, path, end) && Place(Keys(sets), Keyed(path), end)
  {
    hide Contiguous, Depth;
    forall i, k | 0 <= i < k < end ensures Depth(path, sets[i]) <= Depth(path, sets[k]) {
      DepthUnimodal(sets, path, i, k, end - 1);
      ExactIsDeepest(path, sets[end - 1], sets[i]);
    }
    if end < |sets| {
      ExactIsDeepest(path, sets[end - 1], sets[end]);
      DropIsPeak(sets, path, end);
    }
    PlaceAfter(sets, path, end);
  }

  lemma ExactIsDeepest(path: Path, s: ControlSet, t: ControlSet)
    requires s.path == path
    ensures Depth(path, t) <= Depth(path, s)
    ensures t.path != path ==> Depth(path, t) < Depth(path, s)
  {
    DepthOrder(path, s, t);
    DepthOrder(path, t, s);
  }

  lemma PlaceAfter(sets: seq<ControlSet>, path: Path, at: nat)
    requires Contiguous(Keys(sets)) && AfterDeepest(sets, path, at)
    ensures Place(Keys(sets), Keyed(path), at)
  {
    hide Common, Contiguous;
    forall k, j | at <= k < j < |sets| ensures Depth(path, sets[j]) <= Depth(path, sets[k]) {
      DepthUnimodal(sets, path, at - 1, k, j);
    }
  }

  /** What ctrl_find_set returns is a place that keeps groups contiguous. */
  lemma PlaceFound(sets: seq<ControlSet>, path: Path, at: nat)
    requires Contiguous(Keys(sets))
    requires if HasPath(sets, path) then FirstWith(sets, path, at) else AfterDeepest(sets, path, at)
    ensures at <= |sets| && Place(Keys(sets), Keyed(path), at)
  {
    hide Common, Contiguous;
    if HasPath(sets, path) {
      forall i, k | 0 <= i < k < |sets|
        ensures k < at ==> Depth(path, sets[i]) <= Depth(path, sets[k])
        ensures at <= i ==> Depth(path, sets[k]) <= Depth(path, sets[i])
      {
        ExactIsDeepest(path, sets[at], sets[i]);
        ExactIsDeepest(path, sets[at], sets[k]);
        if k < at {
          DepthUnimodal(sets, path, i, k, at);
        }
        if at <= i {
          DepthUnimodal(sets, path, at, i, k);
        }
      }
    } else {
      PlaceAfter(sets, path, at);
    }
  }

  /** A run of sets with the path that starts first and stops at another path
      holds all of them. */
  lemma RunIsWhole(sets: seq<ControlSet>, path: Path, first: int, end: int, i: nat)
    requires Contiguous(Keys(sets)) && i < |sets| && sets[i].path == path
    requires 0 <= first <= end <= |sets| && FirstWith(sets, path, first)
    requires end < |sets| ==> sets[end].path != path
    ensures first <= i && (first < end ==> i < end)
  {
    hide Contiguous, Depth;
    if first < end <= i {
      DepthUnimodal(sets, path, first, end, i);
      ExactIsDeepest(path, sets[i], sets[end]);
      ExactIsDeepest(path, sets[first], sets[end]);
    }
  }

  lemma WalkedAll(sets: seq<ControlSet>, path: Path, first: int, visited: seq<nat>)
    requires Contiguous(Keys(sets)) && FirstWith(sets, path, first) && Walked(sets, path, first, visited)
    requires visited != [] && Stopped(sets, path, first + |visited|)
    ensures forall i :: i in visited <==> 0 <= i < |sets| && sets[i].path == path
  {
    forall i | 0 <= i < |sets| && sets[i].path == path ensures i in visited {
      RunIsWhole(sets, path, first, first + |visited|, i);
      assert visited[i - first] == i;
    }
  }

  /** Adding a set at a good place keeps the box valid. */
  lemma AddKeeps(sets: seq<ControlSet>, s: ControlSet, at: nat)
    requires Contiguous(Keys(sets)) && NamesDiffer(sets) && at <= |sets| && Place(Keys(sets), Keyed(s.path), at)
    requires s.name.Some? ==>
      forall i :: 0 <= i < |sets| && sets[i].path == s.path ==> sets[i].name != s.name
    ensures Contiguous(Keys(Inserted(sets, s, at))) && NamesDiffer(Inserted(sets, s, at))
  {
    hide Contiguous, Place;
    InsertKeeps(Keys(sets), Keyed(s.path), at);
    assert Keys(Inserted(sets, s, at)) == Inserted(Keys(sets), Keyed(s.path), at);
  }
}
