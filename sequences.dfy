/** Sequence operations the core performs with `Array.prototype` methods and `Set`. */
module Sequences {

  /** `arrays.flat()`: the concatenation of the arrays, in order. */
  function Flatten<T>(ss: seq<seq<T>>): (r: seq<T>)
  {
    if |ss| == 0 then [] else ss[0] + Flatten(ss[1..])
  }

  lemma {:induction false} FlattenAppend<T>(a: seq<seq<T>>, b: seq<seq<T>>)
    ensures Flatten(a + b) == Flatten(a) + Flatten(b)
    decreases |a|
  {
    if |a| == 0 {
      assert a + b == b;
    } else {
      assert (a + b)[1..] == a[1..] + b;
      FlattenAppend(a[1..], b);
    }
  }

  lemma AppendAssoc<T>(x: seq<T>, y: seq<T>, z: seq<T>)
    ensures x + (y + z) == (x + y) + z
  {
  }

  /** `s.filter(p)`: the elements satisfying `p`, in their order in `s`. */
  function Filter<T(==)>(s: seq<T>, p: T -> bool): (r: seq<T>)
    ensures |r| <= |s|
    ensures forall x :: x in r ==> x in s && p(x)
    ensures forall x :: x in s && p(x) ==> x in r
    decreases |s|
  {
    if |s| == 0 then []
    else (if p(s[0]) then [s[0]] else []) + Filter(s[1..], p)
  }

  /** Filtering commutes with concatenation, so it keeps the order of what it keeps. */
  lemma {:induction false} FilterAppend<T>(a: seq<T>, b: seq<T>, p: T -> bool)
    ensures Filter(a + b, p) == Filter(a, p) + Filter(b, p)
    decreases |a|
  {
    if |a| == 0 {
      assert a + b == b;
    } else {
      assert (a + b)[1..] == a[1..] + b;
      FilterAppend(a[1..], b, p);
    }
  }

  ghost predicate NoDuplicates<T>(s: seq<T>)
  {
    forall i, j :: 0 <= i < j < |s| ==> s[i] != s[j]
  }

  /** The position of the first occurrence of `x` in `s`. */
  function IndexOf<T(==)>(s: seq<T>, x: T): (i: nat)
    requires x in s
    ensures i < |s| && s[i] == x && x !in s[..i]
  {
    if s[0] == x then 0
    else
      var i := IndexOf(s[1..], x);
      assert s[..i + 1] == [s[0]] + s[1..][..i];
      i + 1
  }

  /** `[...new Set(s)]` (and `Array.from(new Set(s))`): a set built by adding the elements in
      order, listed in insertion order. */
  function Dedup<T(==)>(s: seq<T>): (r: seq<T>)
    decreases |s|
  {
    if |s| == 0 then []
    else
      var d := Dedup(s[..|s| - 1]);
      if s[|s| - 1] in d then d else d + [s[|s| - 1]]
  }

  /** `Dedup` keeps exactly the elements of `s`. */
  lemma {:induction false} DedupMembers<T>(s: seq<T>)
    ensures forall x :: x in Dedup(s) <==> x in s
    decreases |s|
  {
    if |s| > 0 {
      DedupMembers(s[..|s| - 1]);
      assert s == s[..|s| - 1] + [s[|s| - 1]];
    }
  }

  /** `Dedup` keeps exactly the elements of `s`, each once, in the order of their first occurrence. */
  lemma {:induction false} DedupSpec<T(!new)>(s: seq<T>)
    ensures NoDuplicates(Dedup(s))
    ensures forall x :: x in Dedup(s) <==> x in s
    ensures forall i, j :: 0 <= i < j < |Dedup(s)| ==> IndexOf(s, Dedup(s)[i]) < IndexOf(s, Dedup(s)[j])
    decreases |s|
  {
    DedupMembers(s);
    if |s| > 0 {
      var p := s[..|s| - 1];
      var x := s[|s| - 1];
      var d := Dedup(p);
      DedupSpec(p);
      assert s == p + [x];
      forall y | y in p
        ensures IndexOf(s, y) == IndexOf(p, y) < |p|
      {
        IndexOfPrefix(p, [x], y);
      }
      if x !in d {
        assert IndexOf(s, x) == |p| by {
          assert s[..|p|] == p;
        }
        forall i | 0 <= i < |d|
          ensures d[i] in p
        {
          assert d[i] in d;
        }
      }
    }
  }

  lemma {:induction false} IndexOfPrefix<T>(a: seq<T>, b: seq<T>, x: T)
    requires x in a
    ensures IndexOf(a + b, x) == IndexOf(a, x)
    decreases |a|
  {
    if a[0] != x {
      assert (a + b)[1..] == a[1..] + b;
      IndexOfPrefix(a[1..], b, x);
    }
  }

  /** A sequence without duplicates is its own `Dedup`: building a set from it loses nothing. */
  lemma {:induction false} DedupOfDistinct<T(!new)>(s: seq<T>)
    requires NoDuplicates(s)
    ensures Dedup(s) == s
    decreases |s|
  {
    if |s| > 0 {
      DedupOfDistinct(s[..|s| - 1]);
      DedupSpec(s[..|s| - 1]);
    }
  }

  lemma IndexOfTail<T>(s: seq<T>, x: T)
    requires NoDuplicates(s) && |s| > 0 && x in s[1..]
    ensures x != s[0] && IndexOf(s, x) == IndexOf(s[1..], x) + 1
  {
    var k := IndexOf(s[1..], x);
    assert s[k + 1] == x;
  }

  lemma {:induction false} FilterDistinct<T>(s: seq<T>, p: T -> bool)
    requires NoDuplicates(s)
    ensures NoDuplicates(Filter(s, p))
    decreases |s|
  {
    if |s| > 0 {
      var t := s[1..];
      FilterDistinct(t, p);
      var ft := Filter(t, p);
      if p(s[0]) {
        assert s[0] !in t;
        assert s[0] !in ft;
      }
    }
  }

  lemma {:induction false} FilterOrder<T>(s: seq<T>, p: T -> bool)
    requires NoDuplicates(s)
    ensures forall i, j :: 0 <= i < j < |Filter(s, p)| ==> IndexOf(s, Filter(s, p)[i]) < IndexOf(s, Filter(s, p)[j])
    decreases |s|
  {
    if |s| > 0 {
      FilterOrder(s[1..], p);
      forall i, j | 0 <= i < j < |Filter(s, p)|
        ensures IndexOf(s, Filter(s, p)[i]) < IndexOf(s, Filter(s, p)[j])
      {
        FilterIndexOf(s, p, i);
        FilterIndexOf(s, p, j);
      }
    }
  }

  /** Where a kept element sits in `s`, read off the first step of `Filter`: the head of `s`
      when it is kept and `k` is 0, otherwise one past its place in the tail. */
  lemma FilterIndexOf<T>(s: seq<T>, p: T -> bool, k: nat)
    requires NoDuplicates(s) && |s| > 0 && k < |Filter(s, p)|
    ensures var off := if p(s[0]) then 1 else 0;
      if k < off then IndexOf(s, Filter(s, p)[k]) == 0
      else (k - off < |Filter(s[1..], p)| &&
            IndexOf(s, Filter(s, p)[k]) == IndexOf(s[1..], Filter(s[1..], p)[k - off]) + 1)
  {
    var t := s[1..];
    var ft := Filter(t, p);
    var off := if p(s[0]) then 1 else 0;
    assert Filter(s, p) == (if p(s[0]) then [s[0]] else []) + ft;
    if k >= off {
      var y := ft[k - off];
      assert Filter(s, p)[k] == y && y in t;
      IndexOfTail(s, y);
    }
  }

  /** Adding one element to a set: the listing grows by it unless it is already there. */
  lemma DedupSnoc<T>(s: seq<T>, x: T)
    ensures Dedup(s + [x]) == if x in Dedup(s) then Dedup(s) else Dedup(s) + [x]
  {
    assert (s + [x])[..|s|] == s;
  }
}
