/**
 Paths of configuration panels (ctrl_path_elements and ctrl_path_compare in
 dialog.c).

 A path is a list of elements separated by slashes.  The comparison walks two
 strings once; it is proved to count the elements the two lists share.
 */
module ControlPaths {
  import opened Marshal

  const SLASH: byte := 47
  const INT_MAX := 0x7FFF_FFFF

  /** A string that fits in memory: the number of its elements is an int. */
  type Path = s: seq<byte> | NulFree(s) && |s| < INT_MAX - 1 witness []

  function Split(s: seq<byte>): (es: seq<seq<byte>>)
    ensures 0 < |es| <= |s| + 1
    ensures forall i :: 0 <= i < |es| ==> SLASH !in es[i]
  {
    if s == [] then [[]]
    else
      var rest := Split(s[1..]);
      if s[0] == SLASH then [[]] + rest else [[s[0]] + rest[0]] + rest[1..]
  }

  /** How many leading elements two lists share. */
  function Common(a: seq<seq<byte>>, b: seq<seq<byte>>): (n: nat)
    ensures n <= |a| && n <= |b|
  {
    if a != [] && b != [] && a[0] == b[0] then 1 + Common(a[1..], b[1..]) else 0
  }

  function Match(p: Path, q: Path): int {
    if p == q then INT_MAX else Common(Split(p), Split(q))
  }

  lemma {:induction false} CommonMeaning(a: seq<seq<byte>>, b: seq<seq<byte>>)
    ensures a[..Common(a, b)] == b[..Common(a, b)]
    ensures Common(a, b) < |a| && Common(a, b) < |b| ==> a[Common(a, b)] != b[Common(a, b)]
  {
    if a != [] && b != [] && a[0] == b[0] {
      CommonMeaning(a[1..], b[1..]);
      var n := Common(a[1..], b[1..]);
      assert a[..n + 1] == [a[0]] + a[1..][..n];
      assert b[..n + 1] == [b[0]] + b[1..][..n];
    }
  }

  /** Joining the elements again gives the string back, so only equal strings
      have equal elements. */
  lemma {:induction false} SplitInjective(s: seq<byte>, t: seq<byte>)
    requires Split(s) == Split(t)
    ensures s == t
  {
    if s == [] || t == [] {
      SplitShape(s);
      SplitShape(t);
    } else {
      SplitShape(s);
      SplitShape(t);
      assert s == [s[0]] + s[1..] && t == [t[0]] + t[1..];
      SplitInjective(s[1..], t[1..]);
    }
  }

  /** The elements with slashes between them. */
  function Join(es: seq<seq<byte>>): seq<byte>
    requires es != []
  {
    if |es| == 1 then es[0] else es[0] + [47] + Join(es[1..])
  }

  /** The elements are what stands between the slashes. */
  lemma {:induction false} SplitInWords(s: seq<byte>)
    ensures Join(Split(s)) == s && forall e :: e in Split(s) ==> 47 !in e
  {
    if s != [] {
      SplitShape(s);
      SplitInWords(s[1..]);
      var rest := Split(s[1..]);
      if s[0] == SLASH {
        assert Split(s) == [[]] + rest;
        assert [] + [47] + s[1..] == s;
      } else {
        assert Split(s) == [[s[0]] + rest[0]] + rest[1..];
        assert Split(s)[1..] == rest[1..];
        assert [s[0]] + s[1..] == s;
        if |rest| > 1 {
          assert [s[0]] + rest[0] + [47] + Join(rest[1..]) == [s[0]] + (rest[0] + [47] + Join(rest[1..]));
        }
      }
    }
  }

  lemma SplitShape(s: seq<byte>)
    ensures Split(s) == [[]] <==> s == []
    ensures s != [] && s[0] == SLASH ==> Split(s)[0] == [] && Split(s)[1..] == Split(s[1..]) && |Split(s)| > 1
    ensures s != [] && s[0] != SLASH ==>
      Split(s)[0] == [s[0]] + Split(s[1..])[0] && Split(s)[1..] == Split(s[1..])[1..]
      && Split(s[1..]) == [Split(s)[0][1..]] + Split(s)[1..]
  {
  }

  /** An equal character moves the comparison on; a slash completes an element. */
  lemma SameHead(s: seq<byte>, t: seq<byte>)
    requires s != [] && t != [] && s[0] == t[0]
    ensures Common(Split(s), Split(t)) == Common(Split(s[1..]), Split(t[1..])) + if s[0] == SLASH then 1 else 0
  {
    var a, b := Split(s[1..]), Split(t[1..]);
    if s[0] == SLASH {
      assert Split(s) == [[]] + a && Split(t) == [[]] + b;
      CommonAfter([], a, b);
    } else {
      assert Split(s) == [[s[0]] + a[0]] + a[1..] && Split(t) == [[s[0]] + b[0]] + b[1..];
      CommonPrefixed(s[0], a, b);
    }
  }

  lemma CommonAfter(e: seq<byte>, a: seq<seq<byte>>, b: seq<seq<byte>>)
    ensures Common([e] + a, [e] + b) == Common(a, b) + 1
  {
    assert ([e] + a)[1..] == a && ([e] + b)[1..] == b;
  }

  lemma CommonPrefixed(c: byte, a: seq<seq<byte>>, b: seq<seq<byte>>)
    requires a != [] && b != []
    ensures Common([[c] + a[0]] + a[1..], [[c] + b[0]] + b[1..]) == Common(a, b)
  {
    var x, y := [c] + a[0], [c] + b[0];
    assert x[1..] == a[0] && y[1..] == b[0];
    assert ([x] + a[1..])[1..] == a[1..] && ([y] + b[1..])[1..] == b[1..];
  }

  predicate AtBoundary(s: seq<byte>) {
    s == [] || s[0] == SLASH
  }

  lemma DifferentHead(s: seq<byte>, t: seq<byte>)
    requires s != t && (s == [] || t == [] || s[0] != t[0])
    ensures Common(Split(s), Split(t)) == if AtBoundary(s) && AtBoundary(t) then 1 else 0
  {
    SplitShape(s);
    SplitShape(t);
  }

  /** ctrl_path_elements. */
  method PathElements(path: Path) returns (i: nat)
    ensures i == |Split(path)|
  {
    i := 1;
    var k: nat := 0;
    while k < |path|
      invariant k <= |path| && i + |Split(path[k..])| == 1 + |Split(path)|
    {
      SplitShape(path[k..]);
      assert path[k..][1..] == path[k + 1..];
      if path[k] == SLASH {
        i := i + 1;
      }
      k := k + 1;
    }
  }

  /** ctrl_path_compare. */
  method PathCompare(p1: Path, p2: Path) returns (i: int)
    ensures i == Match(p1, p2)
  {
    hide Split, Common;
    i := 0;
    var k: nat := 0;
    while k < |p1| || k < |p2|
      invariant k <= |p1| && k <= |p2| && p1[..k] == p2[..k]
      invariant i + Common(Split(p1[k..]), Split(p2[k..])) == Common(Split(p1), Split(p2))
      decreases |p1| - k
    {
      ghost var s, t := p1[k..], p2[k..];
      if (k == |p1| || p1[k] == SLASH) && (k == |p2| || p2[k] == SLASH) {
        i := i + 1;
      }
      if k == |p1| || k == |p2| || p1[k] != p2[k] {
        DifferentHead(s, t);
        return;
      }
      SameHead(s, t);
      assert s[1..] == p1[k + 1..] && t[1..] == p2[k + 1..];
      k := k + 1;
    }
    assert p1 == p1[..k] && p2 == p2[..k];
    i := INT_MAX;
  }

  // ----- paths as lists with an end mark

  /** The elements of a path and a mark no element can be equal to. */
  function Keyed(p: Path): (k: seq<seq<byte>>)
    ensures |k| > 0
  {
    Split(p) + [[SLASH]]
  }

  /** The mark makes identical paths the best match, as INT_MAX does. */
  lemma MatchIsCommon(p: Path, q: Path)
    ensures p == q ==> Common(Keyed(p), Keyed(q)) == |Keyed(p)|
    ensures p != q ==> Match(p, q) == Common(Keyed(p), Keyed(q)) < |Keyed(p)|
    ensures Keyed(p) == Keyed(q) ==> p == q
  {
    var a, b, m := Split(p), Split(q), [SLASH];
    assert forall i :: 0 <= i < |a| ==> a[i] != m by { assert SLASH in m; }
    assert forall i :: 0 <= i < |b| ==> b[i] != m by { assert SLASH in m; }
    CommonExtended(a, b, m);
    if a == b {
      SplitInjective(p, q);
    }
    assert Keyed(p)[..|Keyed(p)| - 1] == a && Keyed(q)[..|Keyed(q)| - 1] == b;
  }

  lemma {:induction false} CommonExtended(a: seq<seq<byte>>, b: seq<seq<byte>>, m: seq<byte>)
    requires forall i :: 0 <= i < |a| ==> a[i] != m
    requires forall i :: 0 <= i < |b| ==> b[i] != m
    ensures Common(a + [m], b + [m]) == if a == b then |a| + 1 else Common(a, b)
    ensures a != b ==> Common(a, b) <= |a|
  {
    if a != [] && b != [] {
      assert (a + [m])[1..] == a[1..] + [m] && (b + [m])[1..] == b[1..] + [m];
      assert a == [a[0]] + a[1..] && b == [b[0]] + b[1..];
      CommonExtended(a[1..], b[1..], m);
    }
  }
}
