/**
 * Sequence helpers shared by the controllers: the JavaScript `filter`,
 * `[...new Set(xs)]` (first-occurrence de-duplication) and the order a
 * database `sort` returns, up to ties.
 */
module Seqs {
  import opened Options

  /** `xs.filter(p)`: the elements satisfying `p`, in their original order. */
  function Filter<T(!new)>(xs: seq<T>, p: T -> bool): (r: seq<T>)
    ensures |r| <= |xs|
    ensures forall x :: x in r <==> x in xs && p(x)
    ensures forall i :: 0 <= i < |r| ==> p(r[i])
  {
    if xs == [] then []
    else (if p(xs[0]) then [xs[0]] else []) + Filter(xs[1..], p)
  }

  /** Number of elements satisfying `p` (`xs.filter(p).length`). */
  function Count<T(!new)>(xs: seq<T>, p: T -> bool): nat
  {
    |Filter(xs, p)|
  }

  /** Counting over a concatenation adds up. */
  lemma {:induction false} CountAppend<T(!new)>(xs: seq<T>, ys: seq<T>, p: T -> bool)
    ensures Count(xs + ys, p) == Count(xs, p) + Count(ys, p)
  {
    if xs == [] {
      assert xs + ys == ys;
    } else {
      assert (xs + ys)[1..] == xs[1..] + ys;
      CountAppend(xs[1..], ys, p);
    }
  }

  /** `xs.findIndex(p)`, with "not found" as `None`. */
  function FindFirst<T>(xs: seq<T>, p: T -> bool): (r: Option<nat>)
    ensures r.Some? ==> r.value < |xs| && p(xs[r.value])
    ensures r.Some? ==> forall j :: 0 <= j < r.value ==> !p(xs[j])
    ensures r.None? ==> forall j :: 0 <= j < |xs| ==> !p(xs[j])
  {
    if xs == [] then None
    else if p(xs[0]) then Some(0)
    else match FindFirst(xs[1..], p)
      case None => None
      case Some(k) => Some(k + 1)
  }

  /**
   * If position i of `xs` passes both `p` and `q`, the first element of
   * `Filter(xs, p)` passing `q` is found and sits at some position m <= i of `xs`.
   */
  lemma {:induction false} FirstInFilterComesEarly<T(!new)>(xs: seq<T>, p: T -> bool, q: T -> bool, i: nat) returns (m: nat)
    requires i < |xs| && p(xs[i]) && q(xs[i])
    ensures var ys := Filter(xs, p);
      m <= i && FindFirst(ys, q).Some? && ys[FindFirst(ys, q).value] == xs[m]
  {
    var ys := Filter(xs, p);
    var tail := Filter(xs[1..], p);
    if !p(xs[0]) {
      assert ys == tail;
      var m' := FirstInFilterComesEarly(xs[1..], p, q, i - 1);
      m := m' + 1;
    } else {
      assert ys == [xs[0]] + tail;
      assert ys[1..] == tail;
      if q(xs[0]) {
        m := 0;
      } else {
        var m' := FirstInFilterComesEarly(xs[1..], p, q, i - 1);
        m := m' + 1;
      }
    }
  }

  /** `xs.map(f)`. */
  function Map<T, U>(xs: seq<T>, f: T -> U): (r: seq<U>)
    ensures |r| == |xs|
    ensures forall i :: 0 <= i < |xs| ==> r[i] == f(xs[i])
  {
    seq(|xs|, i requires 0 <= i < |xs| => f(xs[i]))
  }

  lemma MapLast<T, U>(xs: seq<T>, x: T, f: T -> U)
    ensures Map(xs + [x], f) == Map(xs, f) + [f(x)]
  {
  }

  /** The values of `xs.map(f)` are exactly the images of the elements of `xs`. */
  lemma MapMembers<T, U>(xs: seq<T>, f: T -> U)
    ensures forall y :: y in Map(xs, f) <==> exists x :: x in xs && f(x) == y
  {
    forall y | y in Map(xs, f) ensures exists x :: x in xs && f(x) == y {
      var i :| 0 <= i < |xs| && Map(xs, f)[i] == y;
      assert xs[i] in xs;
    }
  }

  /** One more element of a prefix adds one more mapped value. */
  lemma MapPrefixStep<T, U>(xs: seq<T>, f: T -> U, j: nat)
    requires j < |xs|
    ensures Map(xs[..j + 1], f) == Map(xs[..j], f) + [f(xs[j])]
  {
    assert xs[..j + 1] == xs[..j] + [xs[j]];
    MapLast(xs[..j], xs[j], f);
  }

  predicate Distinct<T(==)>(xs: seq<T>)
  {
    forall i, j :: 0 <= i < j < |xs| ==> xs[i] != xs[j]
  }

  /** Position of the first occurrence of `x` in `xs`. */
  function IndexOf<T(==)>(xs: seq<T>, x: T): (k: nat)
    requires x in xs
    ensures k < |xs| && xs[k] == x && x !in xs[..k]
  {
    if xs[0] == x then 0 else 1 + IndexOf(xs[1..], x)
  }

  lemma {:induction false} IndexOfPrefix<T>(xs: seq<T>, n: nat, x: T)
    requires n <= |xs| && x in xs[..n]
    ensures IndexOf(xs, x) == IndexOf(xs[..n], x)
  {
    var k := IndexOf(xs[..n], x);
    assert xs[k] == x;
    assert xs[..k] == xs[..n][..k];
  }

  /**
   * `[...new Set(xs)]`: every distinct element once, in the order of its
   * first occurrence in `xs`.
   */
  function Dedup<T(==,!new)>(xs: seq<T>): (r: seq<T>)
    ensures forall x :: x in r <==> x in xs
    ensures Distinct(r)
    decreases |xs|
  {
    if xs == [] then []
    else
      var init := xs[..|xs| - 1];
      var last := xs[|xs| - 1];
      var r := Dedup(init);
      assert xs == init + [last];
      if last in r then r else r + [last]
  }

  /** `Dedup` lists the distinct elements in the order of their first occurrence. */
  lemma {:induction false} DedupKeepsFirstOccurrenceOrder<T(!new)>(xs: seq<T>)
    ensures forall i, j :: 0 <= i < j < |Dedup(xs)| ==> IndexOf(xs, Dedup(xs)[i]) < IndexOf(xs, Dedup(xs)[j])
    decreases |xs|
  {
    if xs != [] {
      var init := xs[..|xs| - 1];
      var last := xs[|xs| - 1];
      var r := Dedup(init);
      assert xs == init + [last];
      DedupKeepsFirstOccurrenceOrder(init);
      DedupStep(xs, r, init, last);
    }
  }

  lemma DedupStep<T>(xs: seq<T>, r: seq<T>, init: seq<T>, last: T)
    requires xs == init + [last]
    requires forall x :: x in r <==> x in init
    requires forall i, j :: 0 <= i < j < |r| ==> IndexOf(init, r[i]) < IndexOf(init, r[j])
    ensures forall i :: 0 <= i < |r| ==> IndexOf(xs, r[i]) == IndexOf(init, r[i])
    ensures last !in r ==> IndexOf(xs, last) == |init|
  {
    forall i | 0 <= i < |r|
      ensures IndexOf(xs, r[i]) == IndexOf(init, r[i])
    {
      assert xs[..|init|] == init;
      IndexOfPrefix(xs, |init|, r[i]);
    }
    if last !in r {
      assert xs[..|init|] == init;
    }
  }

  /** `new Set` meets one more element: it is appended unless already there. */
  lemma DedupLast<T(!new)>(xs: seq<T>, x: T)
    ensures Dedup(xs + [x]) == if x in Dedup(xs) then Dedup(xs) else Dedup(xs) + [x]
  {
    assert (xs + [x])[..|xs + [x]| - 1] == xs;
  }

  /**
   * Sort keys are pairs of strings compared field by field, each field by the
   * code-unit order a database uses for strings.
   */
  type SortKey = (string, string)

  /** `a <= b` in code-unit lexicographic order. */
  predicate LexLe(a: string, b: string)
  {
    if a == [] then true
    else if b == [] then false
    else if a[0] != b[0] then a[0] < b[0]
    else LexLe(a[1..], b[1..])
  }

  lemma {:induction false} LexLeTotal(a: string, b: string)
    ensures LexLe(a, b) || LexLe(b, a)
  {
    if a != [] && b != [] && a[0] == b[0] {
      LexLeTotal(a[1..], b[1..]);
    }
  }

  lemma {:induction false} LexLeTransitive(a: string, b: string, c: string)
    requires LexLe(a, b) && LexLe(b, c)
    ensures LexLe(a, c)
  {
    if a != [] && b != [] && c != [] && a[0] == b[0] && b[0] == c[0] {
      LexLeTransitive(a[1..], b[1..], c[1..]);
    }
  }

  lemma {:induction false} LexLeAntisymmetric(a: string, b: string)
    requires LexLe(a, b) && LexLe(b, a)
    ensures a == b
  {
    if a != [] && b != [] {
      LexLeAntisymmetric(a[1..], b[1..]);
      assert a == [a[0]] + a[1..];
      assert b == [b[0]] + b[1..];
    }
  }

  predicate KeyLe(a: SortKey, b: SortKey)
  {
    (LexLe(a.0, b.0) && a.0 != b.0) || (a.0 == b.0 && LexLe(a.1, b.1))
  }

  lemma KeyLeTotal(a: SortKey, b: SortKey)
    ensures KeyLe(a, b) || KeyLe(b, a)
  {
    LexLeTotal(a.0, b.0);
    LexLeTotal(a.1, b.1);
  }

  lemma KeyLeTransitive(a: SortKey, b: SortKey, c: SortKey)
    requires KeyLe(a, b) && KeyLe(b, c)
    ensures KeyLe(a, c)
  {
    if a.0 == b.0 && b.0 == c.0 {
      LexLeTransitive(a.1, b.1, c.1);
    } else if a.0 == b.0 {
      assert LexLe(a.0, c.0) && a.0 != c.0;
    } else if b.0 == c.0 {
      assert LexLe(a.0, c.0) && a.0 != c.0;
    } else {
      LexLeTransitive(a.0, b.0, c.0);
      if a.0 == c.0 {
        LexLeAntisymmetric(a.0, b.0);
      }
    }
  }

  predicate SortedBy<T>(xs: seq<T>, key: T -> SortKey)
  {
    forall i, j :: 0 <= i < j < |xs| ==> KeyLe(key(xs[i]), key(xs[j]))
  }

  /** Puts `x` in front of the first element whose key is not below its own. */
  function Insert<T>(x: T, s: seq<T>, key: T -> SortKey): (r: seq<T>)
    requires SortedBy(s, key)
    ensures multiset(r) == multiset(s) + multiset{x}
    ensures SortedBy(r, key)
  {
    if s == [] || KeyLe(key(x), key(s[0])) then
      InsertFront(x, s, key);
      [x] + s
    else
      var rest := Insert(x, s[1..], key);
      KeyLeTotal(key(x), key(s[0]));
      InsertBehind(x, s, rest, key);
      assert s == [s[0]] + s[1..];
      [s[0]] + rest
  }

  lemma InsertFront<T>(x: T, s: seq<T>, key: T -> SortKey)
    requires SortedBy(s, key)
    requires s == [] || KeyLe(key(x), key(s[0]))
    ensures SortedBy([x] + s, key)
  {
    var r := [x] + s;
    forall i, j | 0 <= i < j < |r| ensures KeyLe(key(r[i]), key(r[j])) {
      if i == 0 && j > 1 {
        KeyLeTransitive(key(x), key(s[0]), key(s[j - 1]));
      }
    }
  }

  lemma InsertBehind<T>(x: T, s: seq<T>, rest: seq<T>, key: T -> SortKey)
    requires s != [] && SortedBy(s, key) && KeyLe(key(s[0]), key(x))
    requires multiset(rest) == multiset(s[1..]) + multiset{x}
    requires SortedBy(rest, key)
    ensures SortedBy([s[0]] + rest, key)
  {
    var r := [s[0]] + rest;
    forall i, j | 0 <= i < j < |r| ensures KeyLe(key(r[i]), key(r[j])) {
      if i == 0 {
        var y := rest[j - 1];
        assert y in multiset(rest);
        if y != x {
          assert y in multiset(s[1..]);
          var k :| 0 <= k < |s[1..]| && s[1..][k] == y;
          assert s[k + 1] == y;
        }
      }
    }
  }

  /**
   * An insertion sort by `key`: the order a `sort` on these keys returns,
   * up to the order of ties.
   */
  function SortBy<T>(xs: seq<T>, key: T -> SortKey): (r: seq<T>)
    ensures multiset(r) == multiset(xs)
    ensures SortedBy(r, key)
  {
    if xs == [] then []
    else
      assert xs == [xs[0]] + xs[1..];
      Insert(xs[0], SortBy(xs[1..], key), key)
  }

  /** Filtering a sorted sequence leaves it sorted. */
  lemma {:induction false} FilterSorted<T(!new)>(xs: seq<T>, p: T -> bool, key: T -> SortKey)
    requires SortedBy(xs, key)
    ensures SortedBy(Filter(xs, p), key)
  {
    if xs != [] {
      var rest := Filter(xs[1..], p);
      FilterSorted(xs[1..], p, key);
      var r := Filter(xs, p);
      if p(xs[0]) {
        assert r == [xs[0]] + rest;
        forall i, j | 0 <= i < j < |r| ensures KeyLe(key(r[i]), key(r[j])) {
          if i == 0 {
            assert rest[j - 1] in xs[1..];
            var k :| 0 <= k < |xs[1..]| && xs[1..][k] == rest[j - 1];
            assert xs[k + 1] == r[j];
          }
        }
      } else {
        assert r == rest;
      }
    }
  }

  /** Filtering distributes over concatenation. */
  lemma {:induction false} FilterAppend<T(!new)>(xs: seq<T>, ys: seq<T>, p: T -> bool)
    ensures Filter(xs + ys, p) == Filter(xs, p) + Filter(ys, p)
  {
    if xs == [] {
      assert xs + ys == ys;
    } else {
      assert (xs + ys)[1..] == xs[1..] + ys;
      FilterAppend(xs[1..], ys, p);
    }
  }

  lemma {:induction false} SubsetCard<T>(a: set<T>, b: set<T>)
    requires a <= b
    ensures |a| <= |b|
    decreases |b|
  {
    if a != {} {
      var x :| x in a;
      SubsetCard(a - {x}, b - {x});
    }
  }

  lemma {:induction false} SeqSetCard<T>(xs: seq<T>)
    ensures |set x | x in xs| <= |xs|
    ensures Distinct(xs) ==> |set x | x in xs| == |xs|
  {
    if xs != [] {
      SeqSetCard(xs[1..]);
      assert (set x | x in xs) == (set x | x in xs[1..]) + {xs[0]};
      if Distinct(xs) {
        assert xs[0] !in xs[1..];
      }
    }
  }

  /** A duplicate-free sequence drawn from `ys` is no longer than `ys`. */
  lemma Pigeonhole<T>(xs: seq<T>, ys: seq<T>)
    requires Distinct(xs)
    requires forall x :: x in xs ==> x in ys
    ensures |xs| <= |ys|
  {
    SeqSetCard(xs);
    SeqSetCard(ys);
    SubsetCard(set x | x in xs, set y | y in ys);
  }

  /** Every pair of an element of `xs` with an element of `ys`. */
  function Pairs<A(!new), B(!new)>(xs: seq<A>, ys: seq<B>): (r: seq<(A, B)>)
    ensures |r| == |xs| * |ys|
    ensures forall a, b :: (a, b) in r <==> a in xs && b in ys
  {
    if xs == [] then []
    else
      var row := Map(ys, (b: B) => (xs[0], b));
      assert forall b :: (xs[0], b) in row <==> b in ys by {
        forall b | b in ys ensures (xs[0], b) in row {
          var i :| 0 <= i < |ys| && ys[i] == b;
          assert row[i] == (xs[0], b);
        }
      }
      row + Pairs(xs[1..], ys)
  }
}
