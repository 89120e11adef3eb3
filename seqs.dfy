/** List operations the data model performs on its Python lists: membership
    without duplicates, removal and replacement of the first equal element,
    the linear search behind them, and order-preserving selection. */
module Seqs {

  predicate NoDup<T(==)>(s: seq<T>) {
    forall i, j :: 0 <= i < j < |s| ==> s[i] != s[j]
  }

  /** `if x not in s: s.append(x)`. */
  function AppendNew<T(==)>(s: seq<T>, x: T): (r: seq<T>)
    ensures x in r
    ensures x in s ==> r == s
    ensures x !in s ==> r == s + [x]
    ensures NoDup(s) ==> NoDup(r)
  {
    if x in s then s else s + [x]
  }

  /** Index of the first element equal to x, or |s| when there is none. */
  function FirstIndex<T(==)>(s: seq<T>, x: T): (i: nat)
    ensures i <= |s|
    ensures i < |s| ==> s[i] == x
    ensures forall k :: 0 <= k < i ==> s[k] != x
  {
    if s == [] then 0 else if s[0] == x then 0 else 1 + FirstIndex(s[1..], x)
  }

  /** The `for i, p in enumerate(s): if p == x` scan shared by remove_phone,
      remove_email and edit_phone. */
  method FindFirst<T(==)>(s: seq<T>, x: T) returns (i: nat)
    ensures i == FirstIndex(s, x)
  {
    i := 0;
    while i < |s| && s[i] != x
      invariant i <= |s|
      invariant forall k :: 0 <= k < i ==> s[k] != x
    {
      i := i + 1;
    }
    FirstIndexUnique(s, x, i);
  }

  lemma FirstIndexUnique<T>(s: seq<T>, x: T, i: nat)
    requires i <= |s| && (i < |s| ==> s[i] == x)
    requires forall k :: 0 <= k < i ==> s[k] != x
    ensures i == FirstIndex(s, x)
  {
  }

  /** The scan stops inside s exactly when x occurs in s. */
  lemma {:induction false} FirstIndexFound<T>(s: seq<T>, x: T)
    ensures FirstIndex(s, x) < |s| <==> x in s
  {
    if s != [] && s[0] != x {
      FirstIndexFound(s[1..], x);
    }
  }

  /** `s.pop(i)` at the first element equal to x; s itself when x is absent. */
  function RemoveFirst<T(==)>(s: seq<T>, x: T): seq<T> {
    var i := FirstIndex(s, x);
    if i < |s| then s[..i] + s[i + 1..] else s
  }

  /** Removing deletes one copy of x, and nothing when x is absent. */
  lemma RemoveFirstCount<T>(s: seq<T>, x: T)
    ensures multiset(RemoveFirst(s, x)) == multiset(s) - multiset{x}
  {
    var i := FirstIndex(s, x);
    if i < |s| {
      assert s == s[..i] + [x] + s[i + 1..];
    } else {
      assert x !in multiset(s);
    }
  }

  /** Removing keeps the order of the remaining elements. */
  lemma RemoveFirstIsSubseq<T>(s: seq<T>, x: T)
    ensures IsSubseq(RemoveFirst(s, x), s)
  {
    var i := FirstIndex(s, x);
    if i < |s| {
      DropOneIsSubseq(s, i);
    } else {
      SubseqRefl(s);
    }
  }

  lemma RemoveFirstKeepsNoDup<T>(s: seq<T>, x: T)
    requires NoDup(s)
    ensures NoDup(RemoveFirst(s, x))
    ensures x !in RemoveFirst(s, x)
  {
    var i := FirstIndex(s, x);
    if i < |s| {
      var r := RemoveFirst(s, x);
      assert forall k :: 0 <= k < |r| ==> r[k] == (if k < i then s[k] else s[k + 1]);
    }
  }

  /** Without duplicates, removing x leaves exactly the other elements. */
  lemma RemoveFirstMembers<T>(s: seq<T>, x: T)
    requires NoDup(s)
    ensures forall y :: y in RemoveFirst(s, x) <==> y in s && y != x
  {
    RemoveFirstKeepsNoDup(s, x);
    RemoveFirstCount(s, x);
    forall y ensures y in RemoveFirst(s, x) <==> y in s && y != x {
      assert y in RemoveFirst(s, x) <==> y in multiset(RemoveFirst(s, x));
      assert y in s <==> y in multiset(s);
    }
  }

  /** The first element equal to x replaced by y (in place); s itself when x is absent. */
  function ReplaceFirst<T(==)>(s: seq<T>, x: T, y: T): seq<T> {
    var i := FirstIndex(s, x);
    if i < |s| then s[i := y] else s
  }

  /** Replacing changes one position, the first match, and nothing else. */
  lemma ReplaceFirstSpec<T>(s: seq<T>, x: T, y: T)
    ensures |ReplaceFirst(s, x, y)| == |s|
    ensures x in s ==> ReplaceFirst(s, x, y)[FirstIndex(s, x)] == y
    ensures forall k :: 0 <= k < |s| && k != FirstIndex(s, x) ==> ReplaceFirst(s, x, y)[k] == s[k]
  {
  }

  /** s is obtained from t by deleting some elements (order kept). */
  predicate IsSubseq<T(==)>(s: seq<T>, t: seq<T>)
    decreases |t|
  {
    if s == [] then true
    else if t == [] then false
    else if s[0] == t[0] then IsSubseq(s[1..], t[1..])
    else IsSubseq(s, t[1..])
  }

  lemma {:induction false} SubseqRefl<T>(s: seq<T>)
    ensures IsSubseq(s, s)
  {
    if s != [] {
      SubseqRefl(s[1..]);
    }
  }

  /** Deleting the element at index i leaves a subsequence. */
  lemma {:induction false} DropOneIsSubseq<T>(s: seq<T>, i: nat)
    requires i < |s|
    ensures IsSubseq(s[..i] + s[i + 1..], s)
  {
    var r := s[..i] + s[i + 1..];
    if i == 0 {
      assert r == s[1..];
      SkipHead(s[1..], s);
    } else {
      DropOneIsSubseq(s[1..], i - 1);
      assert r[0] == s[0];
      assert r[1..] == s[1..][..i - 1] + s[1..][i..];
    }
  }

  lemma SkipHead<T>(s: seq<T>, t: seq<T>)
    requires t != [] && s == t[1..]
    ensures IsSubseq(s, t)
  {
    SubseqRefl(s);
    SubseqDropFront(s, t);
  }

  /** A subsequence of the tail is a subsequence of the whole. */
  lemma {:induction false} SubseqDropFront<T>(s: seq<T>, t: seq<T>)
    requires t != [] && IsSubseq(s, t[1..])
    ensures IsSubseq(s, t)
    decreases |s| + |t|
  {
    if s != [] && s[0] == t[0] {
      var u := t[1..];
      if u != [] {
        if s[0] == u[0] {
          SubseqDropFront(s[1..], u);
        } else {
          SubseqStepHead(s, u);
        }
      }
    }
  }

  /** If s is a subsequence of u, so is s minus its head. */
  lemma {:induction false} SubseqStepHead<T>(s: seq<T>, u: seq<T>)
    requires s != [] && IsSubseq(s, u)
    ensures IsSubseq(s[1..], u)
    decreases |s| + |u|
  {
    if s[0] == u[0] {
      SubseqDropFront(s[1..], u);
    } else {
      SubseqStepHead(s, u[1..]);
      SubseqDropFront(s[1..], u);
    }
  }

  /** The union of f over the elements of s: what `set.update` of a
      generator over s adds. */
  function UnionOf<T, U>(s: seq<T>, f: T -> set<U>): set<U> {
    if s == [] then {} else UnionOf(s[..|s| - 1], f) + f(s[|s| - 1])
  }

  lemma UnionOfSnoc<T, U>(s: seq<T>, f: T -> set<U>, x: T)
    ensures UnionOf(s + [x], f) == UnionOf(s, f) + f(x)
  {
    assert (s + [x])[..|s|] == s;
  }

  /** Every element of the union comes from some element of s. */
  lemma {:induction false} UnionOfSource<T, U>(s: seq<T>, f: T -> set<U>, y: U) returns (k: nat)
    requires y in UnionOf(s, f)
    ensures k < |s| && y in f(s[k])
  {
    var n := |s| - 1;
    if y in UnionOf(s[..n], f) {
      k := UnionOfSource(s[..n], f, y);
      assert s[..n][k] == s[k];
    } else {
      k := n;
    }
  }

  /** Every element of s contributes to the union. */
  lemma {:induction false} UnionOfPart<T, U>(s: seq<T>, f: T -> set<U>, k: nat)
    requires k < |s|
    ensures f(s[k]) <= UnionOf(s, f)
  {
    var n := |s| - 1;
    if k < n {
      UnionOfPart(s[..n], f, k);
      assert s[..n][k] == s[k];
    }
  }

  /** `d.values()` of a dictionary whose keys, in insertion order, are ks. */
  function InOrder<K, V>(ks: seq<K>, m: map<K, V>): (r: seq<V>)
    requires forall k | k in ks :: k in m
    ensures |r| == |ks|
    ensures forall i :: 0 <= i < |ks| ==> r[i] == m[ks[i]]
  {
    if ks == [] then [] else [m[ks[0]]] + InOrder(ks[1..], m)
  }
}
