module Wrappers {
  datatype Option<T> = None | Some(value: T)

  type Byte = x: int | 0 <= x < 256

  function Min(a: nat, b: nat): nat { if a < b then a else b }

  function Max(a: nat, b: nat): nat { if a < b then b else a }

  lemma NextMultiple(m: nat, a: int, b: int)
    ensures a < b ==> m * a + m <= m * b
  {
    assert a < b ==> m * (a + 1) <= m * b;
  }

  /** Quotient and remainder are the only numbers of their kind. */
  lemma RemainderIs(x: int, q: int, r: int, m: nat)
    requires x == m * q + r && 0 <= r < m
    ensures x % m == r && x / m == q
  {
    assert x == m * (x / m) + x % m;
    NextMultiple(m, q, x / m);
    NextMultiple(m, x / m, q);
  }

  lemma AddMultiple(x: int, q: int, m: nat)
    requires m > 0
    ensures (x + m * q) % m == x % m
  {
    assert x == m * (x / m) + x % m;
    assert m * (x / m + q) == m * (x / m) + m * q;
    RemainderIs(x + m * q, x / m + q, x % m, m);
  }

  ghost predicate Distinct<T>(s: seq<T>) {
    forall i, j | 0 <= i < j < |s| :: s[i] != s[j]
  }

  lemma PartOfPart<T>(s: seq<T>, from: nat, to: nat, a: nat, b: nat)
    requires from <= to <= |s| && a <= b <= to - from
    ensures s[from..to][a..b] == s[from + a..from + b]
  {
    var t, u, v := s[from..to], s[from..to][a..b], s[from + a..from + b];
    forall i | 0 <= i < b - a
      ensures u[i] == v[i]
    {
      assert u[i] == t[a + i];
    }
    assert u == v;
  }

  /** The elements of all the sequences, one sequence after the other. */
  function Concat<T>(ss: seq<seq<T>>): seq<T> {
    if ss == [] then [] else Concat(ss[..|ss| - 1]) + ss[|ss| - 1]
  }

  lemma {:induction false} ConcatPrefix<T>(ss: seq<seq<T>>, n: nat)
    requires n <= |ss|
    ensures |Concat(ss[..n])| <= |Concat(ss)| && Concat(ss[..n]) == Concat(ss)[..|Concat(ss[..n])|]
    decreases |ss|
  {
    if n < |ss| {
      var m := |ss| - 1;
      ConcatPrefix(ss[..m], n);
      assert ss[..m][..n] == ss[..n];
    } else {
      assert ss[..n] == ss;
    }
  }

  lemma {:induction false} ConcatFirst<T>(s: seq<T>, ss: seq<seq<T>>)
    ensures Concat([s] + ss) == s + Concat(ss)
    decreases |ss|
  {
    if ss == [] {
      assert [s] + ss == [s];
      assert ([s])[..0] == [];
      assert Concat([s]) == Concat(([s])[..0]) + s == s;
    } else {
      var n := |ss| - 1;
      ConcatFirst(s, ss[..n]);
      assert ([s] + ss)[..n + 1] == [s] + ss[..n];
      assert s + (Concat(ss[..n]) + ss[n]) == (s + Concat(ss[..n])) + ss[n];
    }
  }
}
