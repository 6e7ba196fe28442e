/**
 * The pairs a broad phase hands to its callback. A nested loop over indices
 * visits a sequence of index pairs: the triangle i < j of one container, or
 * the full rectangle of two. Picking the elements at those indices gives
 * the pairs the callback sees, and how often each pair occurs follows from
 * how often its index pair does.
 */
module Pairs {
  /** How often e occurs in s. */
  function Count<T(==)>(s: seq<T>, e: T): nat
  {
    if s == [] then 0 else Count(s[..|s| - 1], e) + (if s[|s| - 1] == e then 1 else 0)
  }

  lemma CountOne<T>(x: T, e: T)
    ensures Count([x], e) == if x == e then 1 else 0
  {
    assert [x][..0] == [];
  }

  lemma {:induction false} CountAppend<T>(a: seq<T>, b: seq<T>, e: T)
    ensures Count(a + b, e) == Count(a, e) + Count(b, e)
    decreases |b|
  {
    if b != [] {
      var k := |b| - 1;
      assert (a + b)[..|a + b| - 1] == a + b[..k];
      assert (a + b)[|a + b| - 1] == b[k];
      CountAppend(a, b[..k], e);
      assert Count(a + b, e) == Count(a + b[..k], e) + (if b[k] == e then 1 else 0);
    } else {
      assert a + b == a;
    }
  }

  lemma CountSnoc<T>(a: seq<T>, x: T, e: T)
    ensures Count(a + [x], e) == Count(a, e) + (if x == e then 1 else 0)
  {
    CountAppend(a, [x], e);
    CountOne(x, e);
  }

  /** No element occurs twice, as in a std::set walked with its iterator. */
  predicate Distinct<T(==)>(s: seq<T>)
  {
    forall i, j :: 0 <= i < j < |s| ==> s[i] != s[j]
  }

  /** One pass of an inner loop: (i, lo), (i, lo + 1), ..., (i, hi - 1). */
  function Row(i: int, lo: int, hi: int): seq<(int, int)>
    decreases hi - lo
  {
    if hi <= lo then [] else Row(i, lo, hi - 1) + [(i, hi - 1)]
  }

  /** The first r rows of `for i < n: for j in i+1 .. n-1`. */
  function Triangle(r: int, n: int): seq<(int, int)>
    decreases r
  {
    if r <= 0 then [] else Triangle(r - 1, n) + Row(r - 1, r, n)
  }

  /** The first r rows of `for i: for j < m`. */
  function Rectangle(r: int, m: int): seq<(int, int)>
    decreases r
  {
    if r <= 0 then [] else Rectangle(r - 1, m) + Row(r - 1, 0, m)
  }

  /** Every index pair addresses an element of a sequence of length n and one of length m. */
  predicate InBounds(idx: seq<(int, int)>, n: int, m: int)
  {
    forall k :: 0 <= k < |idx| ==> 0 <= idx[k].0 < n && 0 <= idx[k].1 < m
  }

  /** The element pairs at the given index pairs, in their order. */
  function Pick<T>(s: seq<T>, t: seq<T>, idx: seq<(int, int)>): (r: seq<(T, T)>)
    requires InBounds(idx, |s|, |t|)
    ensures |r| == |idx|
  {
    if idx == [] then []
    else
      var k := |idx| - 1;
      assert InBounds(idx[..k], |s|, |t|) by {
        forall h | 0 <= h < k ensures 0 <= idx[..k][h].0 < |s| && 0 <= idx[..k][h].1 < |t| {
          assert idx[..k][h] == idx[h];
        }
      }
      Pick(s, t, idx[..k]) + [(s[idx[k].0], t[idx[k].1])]
  }

  lemma {:induction false} PickAt<T>(s: seq<T>, t: seq<T>, idx: seq<(int, int)>, k: int)
    requires InBounds(idx, |s|, |t|) && 0 <= k < |idx|
    ensures Pick(s, t, idx)[k] == (s[idx[k].0], t[idx[k].1])
    decreases |idx|
  {
    var last := |idx| - 1;
    var front := idx[..last];
    assert InBounds(front, |s|, |t|) by {
      forall h | 0 <= h < last ensures 0 <= front[h].0 < |s| && 0 <= front[h].1 < |t| {
        assert front[h] == idx[h];
      }
    }
    if k < last {
      PickAt(s, t, front, k);
      assert front[k] == idx[k];
    }
  }

  /** The index of x in s. */
  function Find<T(==)>(s: seq<T>, x: T): (i: int)
    requires x in s
    ensures 0 <= i < |s| && s[i] == x
  {
    if s[0] == x then 0 else 1 + Find(s[1..], x)
  }

  lemma RowLength(i: int, lo: int, hi: int)
    requires lo <= hi
    ensures |Row(i, lo, hi)| == hi - lo
    decreases hi - lo
  {
    if hi > lo {
      RowLength(i, lo, hi - 1);
    }
  }

  /** A row holds each of its index pairs once and nothing else. */
  lemma {:induction false} RowCount(i: int, lo: int, hi: int, e: (int, int))
    ensures Count(Row(i, lo, hi), e) == if e.0 == i && lo <= e.1 < hi then 1 else 0
    decreases hi - lo
  {
    if hi > lo {
      RowCount(i, lo, hi - 1, e);
      CountAppend(Row(i, lo, hi - 1), [(i, hi - 1)], e);
      CountOne((i, hi - 1), e);
    }
  }

  /** The triangle holds each (i, j) with 0 <= i < r and i < j < n exactly once. */
  lemma {:induction false} TriangleCount(r: int, n: int, e: (int, int))
    ensures Count(Triangle(r, n), e) == if 0 <= e.0 < r && e.0 < e.1 < n then 1 else 0
    decreases r
  {
    if r > 0 {
      TriangleCount(r - 1, n, e);
      RowCount(r - 1, r, n, e);
      CountAppend(Triangle(r - 1, n), Row(r - 1, r, n), e);
    }
  }

  /** The rectangle holds each (i, j) with 0 <= i < r and 0 <= j < m exactly once. */
  lemma {:induction false} RectangleCount(r: int, m: int, e: (int, int))
    ensures Count(Rectangle(r, m), e) == if 0 <= e.0 < r && 0 <= e.1 < m then 1 else 0
    decreases r
  {
    if r > 0 {
      RectangleCount(r - 1, m, e);
      RowCount(r - 1, 0, m, e);
      CountAppend(Rectangle(r - 1, m), Row(r - 1, 0, m), e);
    }
  }

  /** A triangle over n elements has n(n-1)/2 pairs. */
  lemma {:induction false} TriangleLength(r: int, n: int)
    requires 0 <= r <= n
    ensures 2 * |Triangle(r, n)| == r * (2 * n - r - 1)
    decreases r
  {
    if r > 0 {
      TriangleLength(r - 1, n);
      RowLength(r - 1, r, n);
      assert 2 * |Triangle(r, n)| == (r - 1) * (2 * n - r) + 2 * (n - r);
      TriangleStep(r, n);
    }
  }

  lemma TriangleStep(r: int, n: int)
    ensures (r - 1) * (2 * n - r) + 2 * (n - r) == r * (2 * n - r - 1)
  {
  }

  /** Every element of a sequence occurs in it at least once. */
  lemma {:induction false} Occurs<T>(s: seq<T>, k: int)
    requires 0 <= k < |s|
    ensures Count(s, s[k]) >= 1
    decreases |s|
  {
    var last := |s| - 1;
    if k < last {
      assert s[..last][k] == s[k];
      Occurs(s[..last], k);
    }
  }

  lemma RowBounds(i: int, lo: int, hi: int, n: int, m: int)
    requires 0 <= i < n && 0 <= lo && hi <= m
    ensures InBounds(Row(i, lo, hi), n, m)
  {
    forall k | 0 <= k < |Row(i, lo, hi)| ensures 0 <= Row(i, lo, hi)[k].0 < n && 0 <= Row(i, lo, hi)[k].1 < m {
      Occurs(Row(i, lo, hi), k);
      RowCount(i, lo, hi, Row(i, lo, hi)[k]);
    }
  }

  lemma TriangleBounds(r: int, n: int)
    ensures InBounds(Triangle(r, n), n, n)
  {
    forall k | 0 <= k < |Triangle(r, n)| ensures 0 <= Triangle(r, n)[k].0 < n && 0 <= Triangle(r, n)[k].1 < n {
      Occurs(Triangle(r, n), k);
      TriangleCount(r, n, Triangle(r, n)[k]);
    }
  }

  lemma RectangleBounds(r: int, n: int, m: int)
    requires r <= n
    ensures InBounds(Rectangle(r, m), n, m)
  {
    forall k | 0 <= k < |Rectangle(r, m)| ensures 0 <= Rectangle(r, m)[k].0 < n && 0 <= Rectangle(r, m)[k].1 < m {
      Occurs(Rectangle(r, m), k);
      RectangleCount(r, m, Rectangle(r, m)[k]);
    }
  }

  lemma FrontInBounds(idx: seq<(int, int)>, n: int, m: int)
    requires InBounds(idx, n, m) && idx != []
    ensures InBounds(idx[..|idx| - 1], n, m)
  {
    var front := idx[..|idx| - 1];
    forall h | 0 <= h < |front| ensures 0 <= front[h].0 < n && 0 <= front[h].1 < m {
      assert front[h] == idx[h];
    }
  }

  lemma AppendInBounds(a: seq<(int, int)>, b: seq<(int, int)>, n: int, m: int)
    requires InBounds(a, n, m) && InBounds(b, n, m)
    ensures InBounds(a + b, n, m)
  {
    forall k | 0 <= k < |a + b| ensures 0 <= (a + b)[k].0 < n && 0 <= (a + b)[k].1 < m {
      if k < |a| {
        assert (a + b)[k] == a[k];
      } else {
        assert (a + b)[k] == b[k - |a|];
      }
    }
  }

  /** Picking along two index runs one after the other is picking along each in turn. */
  lemma {:induction false} PickAppend<T>(s: seq<T>, t: seq<T>, a: seq<(int, int)>, b: seq<(int, int)>)
    requires InBounds(a, |s|, |t|) && InBounds(b, |s|, |t|)
    ensures InBounds(a + b, |s|, |t|)
    ensures Pick(s, t, a + b) == Pick(s, t, a) + Pick(s, t, b)
    decreases |b|
  {
    AppendInBounds(a, b, |s|, |t|);
    if b == [] {
      assert a + b == a;
    } else {
      var k := |b| - 1;
      FrontInBounds(b, |s|, |t|);
      assert (a + b)[..|a + b| - 1] == a + b[..k];
      assert (a + b)[|a + b| - 1] == b[k];
      PickAppend(s, t, a, b[..k]);
    }
  }

  /** In a sequence without repetitions an element sits at one index only. */
  lemma FindUnique<T>(s: seq<T>, i: int, x: T)
    requires Distinct(s) && 0 <= i < |s|
    ensures s[i] == x <==> x in s && Find(s, x) == i
  {
  }

  /** The pair picked at (i, j) is (p, q) exactly when (i, j) are the indices of p and q. */
  lemma PickedIs<T>(s: seq<T>, t: seq<T>, i: int, j: int, p: T, q: T)
    requires Distinct(s) && Distinct(t) && 0 <= i < |s| && 0 <= j < |t|
    ensures (s[i], t[j]) == (p, q) <==> p in s && q in t && (i, j) == (Find(s, p), Find(t, q))
  {
    FindUnique(s, i, p);
    FindUnique(t, j, q);
  }

  /** Appending an index pair adds its element pair once. */
  lemma PickSnoc<T>(s: seq<T>, t: seq<T>, front: seq<(int, int)>, i: int, j: int, p: T, q: T)
    requires Distinct(s) && Distinct(t) && InBounds(front, |s|, |t|)
    requires 0 <= i < |s| && 0 <= j < |t|
    ensures InBounds(front + [(i, j)], |s|, |t|)
    ensures Count(Pick(s, t, front + [(i, j)]), (p, q)) ==
            Count(Pick(s, t, front), (p, q)) + if p in s && q in t && (i, j) == (Find(s, p), Find(t, q)) then 1 else 0
  {
    var idx := front + [(i, j)];
    assert idx[..|front|] == front;
    assert Pick(s, t, idx) == Pick(s, t, front) + [(s[i], t[j])];
    CountAppend(Pick(s, t, front), [(s[i], t[j])], (p, q));
    CountOne((s[i], t[j]), (p, q));
    PickedIs(s, t, i, j, p, q);
  }

  /**
   * In sequences without repetitions, the pair (p, q) is picked as often as
   * the index pair of p and q occurs, and never when either is missing.
   */
  lemma {:induction false} PickCount<T>(s: seq<T>, t: seq<T>, idx: seq<(int, int)>, p: T, q: T)
    requires Distinct(s) && Distinct(t) && InBounds(idx, |s|, |t|)
    ensures Count(Pick(s, t, idx), (p, q)) == if p in s && q in t then Count(idx, (Find(s, p), Find(t, q))) else 0
    decreases |idx|
  {
    if idx != [] {
      var k := |idx| - 1;
      var front := idx[..k];
      assert InBounds(front, |s|, |t|) by {
        forall h | 0 <= h < k ensures 0 <= front[h].0 < |s| && 0 <= front[h].1 < |t| {
          assert front[h] == idx[h];
        }
      }
      PickCount(s, t, front, p, q);
      var i, j := idx[k].0, idx[k].1;
      assert idx == front + [(i, j)];
      PickSnoc(s, t, front, i, j, p, q);
      if p in s && q in t {
        CountAppend(front, [(i, j)], (Find(s, p), Find(t, q)));
        CountOne((i, j), (Find(s, p), Find(t, q)));
      }
    }
  }

  /**
   * Each unordered pair of distinct members of A occurs exactly once, in one
   * orientation or the other, and nothing else occurs.
   */
  ghost predicate Unordered<T>(c: seq<(T, T)>, A: set<T>)
  {
    (forall k :: 0 <= k < |c| ==> c[k].0 in A && c[k].1 in A && c[k].0 != c[k].1) &&
    (forall p, q :: p in A && q in A && p != q ==> Count(c, (p, q)) + Count(c, (q, p)) == 1)
  }

  /** Each pair of a member of A and a member of B occurs exactly once, and nothing else occurs. */
  ghost predicate Crossed<T>(c: seq<(T, T)>, A: set<T>, B: set<T>)
  {
    (forall k :: 0 <= k < |c| ==> c[k].0 in A && c[k].1 in B) &&
    (forall p, q :: p in A && q in B ==> Count(c, (p, q)) == 1)
  }

  /** The triangle over an enumeration of a set visits every unordered pair of it once. */
  lemma TrianglePairs<T>(s: seq<T>, A: set<T>)
    requires Distinct(s) && forall x :: x in A <==> x in s
    ensures InBounds(Triangle(|s|, |s|), |s|, |s|)
    ensures Unordered(Pick(s, s, Triangle(|s|, |s|)), A)
  {
    var n := |s|;
    TriangleBounds(n, n);
    var c := Pick(s, s, Triangle(n, n));
    forall k | 0 <= k < |c| ensures c[k].0 in A && c[k].1 in A && c[k].0 != c[k].1 {
      TriangleEntry(s, A, k);
    }
    forall p, q | p in A && q in A && p != q ensures Count(c, (p, q)) + Count(c, (q, p)) == 1 {
      TriangleOnce(s, p, q);
    }
  }

  lemma TriangleEntry<T>(s: seq<T>, A: set<T>, k: int)
    requires Distinct(s) && (forall x :: x in A <==> x in s) && InBounds(Triangle(|s|, |s|), |s|, |s|)
    requires 0 <= k < |Triangle(|s|, |s|)|
    ensures var e := Pick(s, s, Triangle(|s|, |s|))[k]; e.0 in A && e.1 in A && e.0 != e.1
  {
    var tri := Triangle(|s|, |s|);
    PickAt(s, s, tri, k);
    Occurs(tri, k);
    TriangleCount(|s|, |s|, tri[k]);
    assert tri[k].0 < tri[k].1;
  }

  lemma TriangleOnce<T>(s: seq<T>, p: T, q: T)
    requires Distinct(s) && InBounds(Triangle(|s|, |s|), |s|, |s|)
    requires p in s && q in s && p != q
    ensures Count(Pick(s, s, Triangle(|s|, |s|)), (p, q)) + Count(Pick(s, s, Triangle(|s|, |s|)), (q, p)) == 1
  {
    var n := |s|;
    PickCount(s, s, Triangle(n, n), p, q);
    PickCount(s, s, Triangle(n, n), q, p);
    var i, j := Find(s, p), Find(s, q);
    assert i != j;
    TriangleCount(n, n, (i, j));
    TriangleCount(n, n, (j, i));
  }

  /** The rectangle over enumerations of two sets visits every pair across them once. */
  lemma RectanglePairs<T>(s: seq<T>, A: set<T>, t: seq<T>, B: set<T>)
    requires Distinct(s) && forall x :: x in A <==> x in s
    requires Distinct(t) && forall x :: x in B <==> x in t
    ensures InBounds(Rectangle(|s|, |t|), |s|, |t|)
    ensures Crossed(Pick(s, t, Rectangle(|s|, |t|)), A, B)
  {
    RectangleBounds(|s|, |s|, |t|);
    RectangleEntries(s, A, t, B);
    RectangleAllOnce(s, A, t, B);
  }

  lemma RectangleEntries<T>(s: seq<T>, A: set<T>, t: seq<T>, B: set<T>)
    requires (forall x :: x in A <==> x in s) && (forall x :: x in B <==> x in t)
    requires InBounds(Rectangle(|s|, |t|), |s|, |t|)
    ensures var c := Pick(s, t, Rectangle(|s|, |t|)); forall k :: 0 <= k < |c| ==> c[k].0 in A && c[k].1 in B
  {
    var c := Pick(s, t, Rectangle(|s|, |t|));
    forall k | 0 <= k < |c| ensures c[k].0 in A && c[k].1 in B {
      RectangleEntry(s, A, t, B, k);
    }
  }

  lemma RectangleAllOnce<T>(s: seq<T>, A: set<T>, t: seq<T>, B: set<T>)
    requires Distinct(s) && (forall x :: x in A <==> x in s)
    requires Distinct(t) && (forall x :: x in B <==> x in t)
    requires InBounds(Rectangle(|s|, |t|), |s|, |t|)
    ensures var c := Pick(s, t, Rectangle(|s|, |t|)); forall p, q :: p in A && q in B ==> Count(c, (p, q)) == 1
  {
    var c := Pick(s, t, Rectangle(|s|, |t|));
    forall p, q | p in A && q in B ensures Count(c, (p, q)) == 1 {
      RectangleOnce(s, t, p, q);
    }
  }

  lemma RectangleEntry<T>(s: seq<T>, A: set<T>, t: seq<T>, B: set<T>, k: int)
    requires (forall x :: x in A <==> x in s) && (forall x :: x in B <==> x in t)
    requires InBounds(Rectangle(|s|, |t|), |s|, |t|) && 0 <= k < |Rectangle(|s|, |t|)|
    ensures var e := Pick(s, t, Rectangle(|s|, |t|))[k]; e.0 in A && e.1 in B
  {
    PickAt(s, t, Rectangle(|s|, |t|), k);
  }

  lemma RectangleOnce<T>(s: seq<T>, t: seq<T>, p: T, q: T)
    requires Distinct(s) && Distinct(t) && InBounds(Rectangle(|s|, |t|), |s|, |t|)
    requires p in s && q in t
    ensures Count(Pick(s, t, Rectangle(|s|, |t|)), (p, q)) == 1
  {
    PickCount(s, t, Rectangle(|s|, |t|), p, q);
    RectangleCount(|s|, |t|, (Find(s, p), Find(t, q)));
  }

  /** The concatenation of the chunks, in order. */
  function Flatten<T>(cs: seq<seq<T>>): (r: seq<T>)
  {
    if cs == [] then [] else Flatten(cs[..|cs| - 1]) + cs[|cs| - 1]
  }

  lemma {:induction false} FlattenAppend<T>(a: seq<seq<T>>, b: seq<seq<T>>)
    ensures Flatten(a + b) == Flatten(a) + Flatten(b)
    decreases |b|
  {
    if b != [] {
      var k := |b| - 1;
      assert (a + b)[..|a + b| - 1] == a + b[..k];
      assert (a + b)[|a + b| - 1] == b[k];
      FlattenAppend(a, b[..k]);
    } else {
      assert a + b == a;
    }
  }

  /**
   * When the chunks labelled l hold e exactly once each and no other chunk
   * holds it, e occurs in the concatenation as often as l occurs among the labels.
   */
  lemma {:induction false} FlattenCount<T, L>(cs: seq<seq<T>>, labels: seq<L>, e: T, l: L)
    requires |cs| == |labels|
    requires forall k :: 0 <= k < |cs| ==> Count(cs[k], e) == if labels[k] == l then 1 else 0
    ensures Count(Flatten(cs), e) == Count(labels, l)
    decreases |cs|
  {
    if cs != [] {
      var k := |cs| - 1;
      assert labels == labels[..k] + [labels[k]];
      FlattenCount(cs[..k], labels[..k], e, l);
      CountAppend(Flatten(cs[..k]), cs[k], e);
      CountAppend(labels[..k], [labels[k]], l);
      CountOne(labels[k], l);
    }
  }

  /** The same, for a pair of elements whose occurrences are counted together. */
  lemma {:induction false} FlattenCountBoth<T, L>(cs: seq<seq<T>>, labels: seq<L>, e: T, f: T, l: L)
    requires |cs| == |labels|
    requires forall k :: 0 <= k < |cs| ==> Count(cs[k], e) + Count(cs[k], f) == if labels[k] == l then 1 else 0
    ensures Count(Flatten(cs), e) + Count(Flatten(cs), f) == Count(labels, l)
    decreases |cs|
  {
    if cs != [] {
      var k := |cs| - 1;
      assert labels == labels[..k] + [labels[k]];
      FlattenCountBoth(cs[..k], labels[..k], e, f, l);
      CountAppend(Flatten(cs[..k]), cs[k], e);
      CountAppend(Flatten(cs[..k]), cs[k], f);
      CountAppend(labels[..k], [labels[k]], l);
      CountOne(labels[k], l);
    }
  }

  /** Every element of the concatenation comes from some chunk. */
  lemma {:induction false} FlattenMember<T>(cs: seq<seq<T>>, i: int) returns (k: int, h: int)
    requires 0 <= i < |Flatten(cs)|
    ensures 0 <= k < |cs| && 0 <= h < |cs[k]| && Flatten(cs)[i] == cs[k][h]
    decreases |cs|
  {
    var last := |cs| - 1;
    var front := Flatten(cs[..last]);
    if i < |front| {
      k, h := FlattenMember(cs[..last], i);
      assert cs[..last][k] == cs[k];
    } else {
      k, h := last, i - |front|;
    }
  }

  lemma FlattenSnoc<T>(cs: seq<seq<T>>, c: seq<T>)
    ensures Flatten(cs + [c]) == Flatten(cs) + c
  {
    assert (cs + [c])[..|cs|] == cs;
  }

  /** Something found at no index does not occur. */
  lemma {:induction false} Absent<T>(s: seq<T>, e: T)
    requires forall k :: 0 <= k < |s| ==> s[k] != e
    ensures Count(s, e) == 0
    decreases |s|
  {
    if s != [] {
      var front := s[..|s| - 1];
      assert forall k :: 0 <= k < |front| ==> front[k] == s[k];
      Absent(front, e);
    }
  }

  /** Appending one index pair appends its element pair. */
  lemma PickSnocEq<T>(s: seq<T>, t: seq<T>, idx: seq<(int, int)>, i: int, j: int)
    requires InBounds(idx, |s|, |t|) && 0 <= i < |s| && 0 <= j < |t|
    ensures InBounds(idx + [(i, j)], |s|, |t|)
    ensures Pick(s, t, idx + [(i, j)]) == Pick(s, t, idx) + [(s[i], t[j])]
  {
    AppendInBounds(idx, [(i, j)], |s|, |t|);
    assert (idx + [(i, j)])[..|idx|] == idx;
  }

  /** The inner loop: element i of s against elements lo .. |t| - 1 of t. */
  method VisitRow<T>(s: seq<T>, t: seq<T>, i: int, lo: int) returns (pairs: seq<(T, T)>)
    requires 0 <= i < |s| && 0 <= lo <= |t|
    ensures InBounds(Row(i, lo, |t|), |s|, |t|)
    ensures pairs == Pick(s, t, Row(i, lo, |t|))
  {
    RowBounds(i, lo, lo, |s|, |t|);
    pairs := [];
    var j := lo;
    while j < |t|
      invariant lo <= j <= |t|
      invariant InBounds(Row(i, lo, j), |s|, |t|)
      invariant pairs == Pick(s, t, Row(i, lo, j))
    {
      PickSnocEq(s, t, Row(i, lo, j), i, j);
      RowBounds(i, lo, j + 1, |s|, |t|);
      pairs := pairs + [(s[i], t[j])];
      j := j + 1;
    }
  }

  /** The nested loop over every i < j of one container (eachCell on a cell and itself, EachBroadPhase::each). */
  method VisitTriangle<T>(s: seq<T>) returns (pairs: seq<(T, T)>)
    ensures InBounds(Triangle(|s|, |s|), |s|, |s|)
    ensures pairs == Pick(s, s, Triangle(|s|, |s|))
  {
    var n := |s|;
    pairs := [];
    var i := 0;
    while i < n
      invariant 0 <= i <= n
      invariant InBounds(Triangle(i, n), n, n)
      invariant pairs == Pick(s, s, Triangle(i, n))
    {
      var row := VisitRow(s, s, i, i + 1);
      PickAppend(s, s, Triangle(i, n), Row(i, i + 1, n));
      pairs := pairs + row;
      i := i + 1;
    }
  }

  /** The nested loop over every element of one container against every element of another (eachCell on two cells). */
  method VisitRectangle<T>(s: seq<T>, t: seq<T>) returns (pairs: seq<(T, T)>)
    ensures InBounds(Rectangle(|s|, |t|), |s|, |t|)
    ensures pairs == Pick(s, t, Rectangle(|s|, |t|))
  {
    var n := |s|;
    pairs := [];
    var i := 0;
    while i < n
      invariant 0 <= i <= n
      invariant InBounds(Rectangle(i, |t|), n, |t|)
      invariant pairs == Pick(s, t, Rectangle(i, |t|))
    {
      var row := VisitRow(s, t, i, 0);
      PickAppend(s, t, Rectangle(i, |t|), Row(i, 0, |t|));
      pairs := pairs + row;
      i := i + 1;
    }
  }
}
