/**
 Small sequence and multiset helpers shared by the buffer-cache and
 page-allocator models: an Option type, removal from a list by position or
 by value, and the multiset union of a family of lists (used to state
 conservation of buffer slots and of free page frames).
 */
module Collections {

  /** An optional value; `None` plays the part of a null pointer. */
  datatype Option<T> = None | Some(value: T)

  /** True iff no value occurs twice in `s`. */
  predicate NoDup<T(==)>(s: seq<T>)
  {
    forall p, q :: 0 <= p < q < |s| ==> s[p] != s[q]
  }

  /** `s` with the element at position `p` unlinked; the others keep their order. */
  function RemoveAt<T>(s: seq<T>, p: nat): (r: seq<T>)
    requires p < |s|
    ensures |r| == |s| - 1
    ensures forall k :: 0 <= k < p ==> r[k] == s[k]
    ensures forall k :: p <= k < |r| ==> r[k] == s[k + 1]
    ensures multiset(r) == multiset(s) - multiset{s[p]}
  {
    assert s == s[..p] + [s[p]] + s[p + 1..];
    s[..p] + s[p + 1..]
  }

  /** Unlinking one element of a list without duplicates leaves none, and leaves that element out. */
  lemma RemoveAtNoDup<T>(s: seq<T>, p: nat)
    requires p < |s| && NoDup(s)
    ensures NoDup(RemoveAt(s, p)) && s[p] !in RemoveAt(s, p)
  {
    var r := RemoveAt(s, p);
    forall x, y | 0 <= x < y < |r| ensures r[x] != r[y] {
      assert r[x] == s[if x < p then x else x + 1];
      assert r[y] == s[if y < p then y else y + 1];
    }
    forall x | 0 <= x < |r| ensures r[x] != s[p] {
      assert r[x] == s[if x < p then x else x + 1];
    }
  }

  /** Unlinking one element keeps every other one. */
  lemma RemoveAtKeeps<T>(s: seq<T>, p: nat, x: T)
    requires p < |s| && x in s && x != s[p]
    ensures x in RemoveAt(s, p)
  {
    assert x in multiset(s);
    assert x in multiset(RemoveAt(s, p));
  }

  /** `s` with every occurrence of `x` unlinked. */
  function Without<T(==,!new)>(s: seq<T>, x: T): (r: seq<T>)
    ensures x !in r
    ensures forall y :: y in r <==> y in s && y != x
  {
    if |s| == 0 then []
    else if s[0] == x then Without(s[1..], x)
    else [s[0]] + Without(s[1..], x)
  }

  /** Removing a value that is absent changes nothing. */
  lemma {:induction false} WithoutAbsent<T(!new)>(s: seq<T>, x: T)
    requires x !in s
    ensures Without(s, x) == s
  {
    if |s| > 0 {
      WithoutAbsent(s[1..], x);
      assert s == [s[0]] + s[1..];
    }
  }

  /** In a duplicate-free list, removing a value is unlinking its one position. */
  lemma {:induction false} WithoutIsRemoveAt<T(!new)>(s: seq<T>, p: nat)
    requires p < |s| && NoDup(s)
    ensures Without(s, s[p]) == RemoveAt(s, p)
  {
    if p == 0 {
      assert s[0] !in s[1..];
      WithoutAbsent(s[1..], s[0]);
    } else {
      assert NoDup(s[1..]);
      WithoutIsRemoveAt(s[1..], p - 1);
      assert s[1..][p - 1] == s[p];
      assert [s[0]] + RemoveAt(s[1..], p - 1) == RemoveAt(s, p);
    }
  }

  /** The multiset of all the elements of all the lists in `ls`. */
  function Union<T>(ls: seq<seq<T>>): multiset<T>
  {
    if |ls| == 0 then multiset{} else multiset(ls[0]) + Union(ls[1..])
  }

  /** Replacing one list changes the union by exactly the difference of the two lists. */
  lemma {:induction false} UnionUpdate<T>(ls: seq<seq<T>>, i: nat, s: seq<T>)
    requires i < |ls|
    ensures Union(ls[i := s]) == Union(ls) - multiset(ls[i]) + multiset(s)
  {
    if i == 0 {
      assert ls[i := s][1..] == ls[1..];
    } else {
      assert ls[i := s][1..] == ls[1..][i - 1 := s];
      UnionUpdate(ls[1..], i - 1, s);
      UnionContains(ls[1..], i - 1);
      var a, r, m := multiset(ls[0]), Union(ls[1..]), multiset(ls[i]);
      assert m <= r && ls[1..][i - 1] == ls[i];
      assert a + (r - m) == a + r - m;
    }
  }

  /** Moving an element of one list to the front of that list leaves the union unchanged. */
  lemma UnionMoveToFront<T>(ls: seq<seq<T>>, h: nat, p: nat)
    requires h < |ls| && p < |ls[h]|
    ensures Union(ls[h := [ls[h][p]] + RemoveAt(ls[h], p)]) == Union(ls)
  {
    var l := ls[h];
    UnionUpdate(ls, h, [l[p]] + RemoveAt(l, p));
    UnionContains(ls, h);
    assert multiset([l[p]] + RemoveAt(l, p)) == multiset{l[p]} + multiset(RemoveAt(l, p));
    assert l[p] in multiset(l);
  }

  /** Taking `a` out of `u` and putting it back without one `x` takes just that `x` out. */
  lemma SwapOut<T>(u: multiset<T>, a: multiset<T>, x: T)
    requires a <= u && x in a
    ensures u - a + (a - multiset{x}) == u - multiset{x}
  {
    forall y ensures (u - a + (a - multiset{x}))[y] == (u - multiset{x})[y] {
    }
  }

  /** Taking `h` out of `v` and putting it back with an extra `x` adds just that `x`. */
  lemma SwapIn<T>(v: multiset<T>, h: multiset<T>, x: T)
    requires h <= v
    ensures v - h + (multiset{x} + h) == v + multiset{x}
  {
    forall y ensures (v - h + (multiset{x} + h))[y] == (v + multiset{x})[y] {
    }
  }

  /** Moving an element of list `b` to the front of another list `h` leaves the union unchanged. */
  lemma UnionMove<T>(ls: seq<seq<T>>, b: nat, p: nat, h: nat)
    requires b < |ls| && h < |ls| && b != h && p < |ls[b]|
    ensures Union(ls[b := RemoveAt(ls[b], p)][h := [ls[b][p]] + ls[h]]) == Union(ls)
  {
    var x := ls[b][p];
    var u := Union(ls);
    var a := multiset(ls[b]);
    var mid := ls[b := RemoveAt(ls[b], p)];
    UnionUpdate(ls, b, RemoveAt(ls[b], p));
    UnionContains(ls, b);
    assert x in a;
    SwapOut(u, a, x);
    assert Union(mid) == u - multiset{x};
    assert mid[h] == ls[h];
    UnionUpdate(mid, h, [x] + ls[h]);
    UnionContains(mid, h);
    assert multiset([x] + ls[h]) == multiset{x} + multiset(ls[h]);
    SwapIn(Union(mid), multiset(ls[h]), x);
    assert u - multiset{x} + multiset{x} == u;
  }

  /** Every list is contained in the union. */
  lemma {:induction false} UnionContains<T>(ls: seq<seq<T>>, i: nat)
    requires i < |ls|
    ensures multiset(ls[i]) <= Union(ls)
  {
    if i > 0 {
      UnionContains(ls[1..], i - 1);
    }
  }

  /** The union is empty exactly when every list is empty. */
  lemma {:induction false} UnionEmpty<T>(ls: seq<seq<T>>)
    ensures Union(ls) == multiset{} <==> forall i :: 0 <= i < |ls| ==> ls[i] == []
  {
    if |ls| > 0 {
      UnionEmpty(ls[1..]);
      assert forall i :: 1 <= i < |ls| ==> ls[i] == ls[1..][i - 1];
      if multiset(ls[0]) == multiset{} {
        assert |ls[0]| == |multiset(ls[0])| == 0;
      }
    }
  }

  /** `s` in reverse order. */
  function Reverse<T>(s: seq<T>): (r: seq<T>)
    ensures |r| == |s|
    ensures forall k :: 0 <= k < |s| ==> r[k] == s[|s| - 1 - k]
  {
    if |s| == 0 then [] else Reverse(s[1..]) + [s[0]]
  }

  /** Every element of every list is in the union. */
  lemma UnionHas<T>(ls: seq<seq<T>>, i: nat, k: nat)
    requires i < |ls| && k < |ls[i]|
    ensures ls[i][k] in Union(ls)
  {
    UnionContains(ls, i);
    assert ls[i][k] in multiset(ls[i]);
  }

  /** In a duplicate-free list every value occurs at most once. */
  lemma {:induction false} NoDupOnce<T>(s: seq<T>, x: T)
    requires NoDup(s)
    ensures multiset(s)[x] <= 1
  {
    if |s| > 0 {
      assert s == [s[0]] + s[1..];
      assert NoDup(s[1..]);
      NoDupOnce(s[1..], x);
      if x == s[0] {
        assert x !in s[1..];
      }
    }
  }

  /** The position of the first occurrence of `x` in `s`. */
  function IndexOf<T(==)>(s: seq<T>, x: T): (i: nat)
    requires x in s
    ensures i < |s| && s[i] == x && x !in s[..i]
  {
    if s[0] == x then 0
    else
      assert s[1..] == s[1..];
      assert x in s[1..] by { assert s == [s[0]] + s[1..]; }
      var j := IndexOf(s[1..], x);
      assert s[..j + 1] == [s[0]] + s[1..][..j];
      j + 1
  }

  /** The pieces of `s` between occurrences of `d`: one more piece than there are separators. */
  function Split<T(==)>(s: seq<T>, d: T): (r: seq<seq<T>>)
    ensures |r| >= 1
    ensures forall k :: 0 <= k < |r| ==> d !in r[k]
    decreases |s|
  {
    if d !in s then [s]
    else
      var i := IndexOf(s, d);
      [s[..i]] + Split(s[i + 1..], d)
  }

  /** The pieces `ps` with `d` between consecutive ones. */
  function Join<T>(ps: seq<seq<T>>, d: T): seq<T>
    requires |ps| >= 1
  {
    if |ps| == 1 then ps[0] else ps[0] + [d] + Join(ps[1..], d)
  }

  /** Joining the pieces of a split gives back the original sequence. */
  lemma {:induction false} JoinSplit<T>(s: seq<T>, d: T)
    ensures Join(Split(s, d), d) == s
    decreases |s|
  {
    if d in s {
      var i := IndexOf(s, d);
      JoinSplit(s[i + 1..], d);
      assert Split(s, d)[1..] == Split(s[i + 1..], d);
      assert s == s[..i] + [d] + s[i + 1..];
    }
  }

  /** Splitting a join of separator-free pieces gives back the pieces. */
  lemma {:induction false} SplitJoin<T>(ps: seq<seq<T>>, d: T)
    requires |ps| >= 1 && forall k :: 0 <= k < |ps| ==> d !in ps[k]
    ensures Split(Join(ps, d), d) == ps
  {
    if |ps| > 1 {
      SplitJoin(ps[1..], d);
      SplitSep(ps[0], Join(ps[1..], d), d);
      assert ps == [ps[0]] + ps[1..];
    }
  }

  /** A separator-free prefix followed by a separator is the first piece. */
  lemma SplitSep<T>(p: seq<T>, s: seq<T>, d: T)
    requires d !in p
    ensures Split(p + [d] + s, d) == [p] + Split(s, d)
  {
    var t := p + [d] + s;
    assert t[|p|] == d;
    var i := IndexOf(t, d);
    assert forall k :: 0 <= k < |p| ==> t[k] == p[k];
    assert t[..i] == p && t[i + 1..] == s;
  }

  /** A separator-free prefix joins the first piece. */
  lemma SplitPrepend<T>(p: seq<T>, s: seq<T>, d: T)
    requires d !in p
    ensures Split(p + s, d) == [p + Split(s, d)[0]] + Split(s, d)[1..]
  {
    var t := p + s;
    if d in s {
      var j := IndexOf(s, d);
      assert s == s[..j] + [d] + s[j + 1..];
      assert t == (p + s[..j]) + [d] + s[j + 1..];
      SplitSep(p + s[..j], s[j + 1..], d);
      SplitSep(s[..j], s[j + 1..], d);
    } else {
      assert d !in t;
    }
  }

  /** All the lists of `ls`, one after the other. */
  function Concat<T>(ls: seq<seq<T>>): seq<T>
  {
    if |ls| == 0 then [] else ls[0] + Concat(ls[1..])
  }

  /** The last piece is what follows the last separator. */
  lemma {:induction false} SplitLast<T>(a: seq<T>, b: seq<T>, d: T)
    requires d !in b
    ensures Split(a + [d] + b, d)[|Split(a + [d] + b, d)| - 1] == b
    decreases |a|
  {
    if d !in a {
      SplitSep(a, b, d);
      assert Split(b, d) == [b];
    } else {
      var i := IndexOf(a, d);
      var rest := a[i + 1..] + [d] + b;
      RegroupAt(a, b, d, i);
      SplitLast(a[i + 1..], b, d);
      SplitSepLast(a[..i], rest, d);
    }
  }

  /** A separator-free prefix does not change the last piece. */
  lemma SplitSepLast<T>(p: seq<T>, s: seq<T>, d: T)
    requires d !in p
    ensures Split(p + [d] + s, d)[|Split(p + [d] + s, d)| - 1] == Split(s, d)[|Split(s, d)| - 1]
  {
    SplitSep(p, s, d);
  }

  /** Cutting `a` at its element `i` regroups `a + [d] + b`. */
  lemma RegroupAt<T>(a: seq<T>, b: seq<T>, d: T, i: nat)
    requires i < |a| && a[i] == d
    ensures a + [d] + b == a[..i] + [d] + (a[i + 1..] + [d] + b)
  {
    assert a == a[..i] + [d] + a[i + 1..];
  }

  /** A join of several pieces ends with a separator and the last piece. */
  lemma {:induction false} JoinLast<T>(ps: seq<seq<T>>, d: T)
    requires |ps| > 1
    ensures Join(ps, d) == Join(ps[..|ps| - 1], d) + [d] + ps[|ps| - 1]
  {
    if |ps| > 2 {
      JoinLast(ps[1..], d);
      assert ps[1..][..|ps| - 2] == ps[..|ps| - 1][1..];
    }
  }

  /** There is one more piece than there are separators. */
  lemma {:induction false} SplitCount<T>(s: seq<T>, d: T)
    ensures |Split(s, d)| == multiset(s)[d] + 1
    decreases |s|
  {
    if d in s {
      var i := IndexOf(s, d);
      assert s == s[..i] + [d] + s[i + 1..];
      assert multiset(s) == multiset(s[..i]) + multiset{d} + multiset(s[i + 1..]);
      assert multiset(s[..i])[d] == 0;
      SplitCount(s[i + 1..], d);
    }
  }
}
