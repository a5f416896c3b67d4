/**
 * Array.prototype.sort with a comparator, which ECMAScript requires to be
 * stable. For a comparator that orders by a string key (with `<` and `>` on
 * strings, here the order of Unicode scalar values, which differs from
 * UTF-16 code-unit order; see README) the stable result is unique, and an
 * insertion sort that takes the elements left to right computes it.
 */
module Sorting {

  // ---------------------------------------------------------------------------
  // String order, as JavaScript's `<` compares strings.

  predicate Less(a: string, b: string)
    decreases |a|
  {
    b != [] && (a == [] || a[0] < b[0] || (a[0] == b[0] && Less(a[1..], b[1..])))
  }

  lemma {:induction false} LessIrreflexive(a: string)
    ensures !Less(a, a)
    decreases |a|
  {
    if a != [] {
      LessIrreflexive(a[1..]);
    }
  }

  lemma {:induction false} LessTransitive(a: string, b: string, c: string)
    requires Less(a, b) && Less(b, c)
    ensures Less(a, c)
    decreases |a|
  {
    if a != [] && a[0] == b[0] && b[0] == c[0] {
      LessTransitive(a[1..], b[1..], c[1..]);
    }
  }

  lemma {:induction false} LessTotal(a: string, b: string)
    ensures a == b || Less(a, b) || Less(b, a)
    decreases |a|
  {
    if a != [] && b != [] && a[0] == b[0] {
      LessTotal(a[1..], b[1..]);
      if a[1..] == b[1..] {
        assert a == [a[0]] + a[1..] && b == [b[0]] + b[1..];
      }
    }
  }

  lemma LessAsymmetric(a: string, b: string)
    requires Less(a, b)
    ensures !Less(b, a)
  {
    if Less(b, a) {
      LessTransitive(a, b, a);
      LessIrreflexive(a);
    }
  }

  /** The comparator `x < y ? -1 : x > y ? 1 : 0` on strings. */
  function Compare(a: string, b: string): (r: int)
    ensures r == 0 <==> a == b
    ensures r < 0 <==> Less(a, b)
    ensures r > 0 <==> Less(b, a)
  {
    LessIrreflexive(a);
    LessTotal(a, b);
    if Less(a, b) then (LessAsymmetric(a, b); -1) else if Less(b, a) then 1 else 0
  }

  // ---------------------------------------------------------------------------
  // Stable insertion sort.

  /** Where `x` goes among `t`: before the first element it sorts strictly before. */
  function Pos<T>(x: T, t: seq<T>, cmp: (T, T) -> int): (m: nat)
    ensures m <= |t|
    ensures forall i | 0 <= i < m :: cmp(x, t[i]) >= 0
    ensures m < |t| ==> cmp(x, t[m]) < 0
  {
    if t == [] || cmp(x, t[0]) < 0 then 0
    else 1 + Pos(x, t[1..], cmp)
  }

  function Insert<T>(x: T, t: seq<T>, cmp: (T, T) -> int): seq<T> {
    var m := Pos(x, t, cmp);
    t[..m] + [x] + t[m..]
  }

  /** `[...s].sort(cmp)`. */
  function Sort<T>(s: seq<T>, cmp: (T, T) -> int): seq<T> {
    if s == [] then [] else Insert(s[|s| - 1], Sort(s[..|s| - 1], cmp), cmp)
  }

  /** A list of at most one entry is never compared. */
  lemma SortShort<T>(s: seq<T>, cmp: (T, T) -> int)
    requires |s| <= 1
    ensures Sort(s, cmp) == s
  {
    if |s| == 1 {
      assert s[..0] == [];
      assert Insert(s[0], [], cmp) == [s[0]];
    }
  }

  lemma InsertPermutes<T>(x: T, t: seq<T>, cmp: (T, T) -> int)
    ensures |Insert(x, t, cmp)| == |t| + 1
    ensures multiset(Insert(x, t, cmp)) == multiset(t) + multiset{x}
  {
    var m := Pos(x, t, cmp);
    assert t == t[..m] + t[m..];
  }

  /** Sorting rearranges: same elements, same multiplicities. */
  lemma {:induction false} SortPermutes<T>(s: seq<T>, cmp: (T, T) -> int)
    ensures |Sort(s, cmp)| == |s|
    ensures multiset(Sort(s, cmp)) == multiset(s)
  {
    if s != [] {
      var init := s[..|s| - 1];
      SortPermutes(init, cmp);
      var t := Sort(init, cmp);
      InsertPermutes(s[|s| - 1], t, cmp);
      assert s == init + [s[|s| - 1]];
    }
  }

  /** A comparator that finds every pair equal keeps the order. */
  lemma {:induction false} SortAllEqual<T>(s: seq<T>, cmp: (T, T) -> int)
    requires forall a, b :: cmp(a, b) == 0
    ensures Sort(s, cmp) == s
  {
    if s != [] {
      var init := s[..|s| - 1];
      SortAllEqual(init, cmp);
      assert Pos(s[|s| - 1], init, cmp) == |init|;
      assert init + [s[|s| - 1]] == s;
    }
  }

  // ---------------------------------------------------------------------------
  // Comparators that order by a string key.

  ghost predicate Orders<T(!new)>(cmp: (T, T) -> int, key: T -> string) {
    forall a, b :: cmp(a, b) == Compare(key(a), key(b))
  }

  predicate SortedBy<T>(s: seq<T>, key: T -> string) {
    forall i, j | 0 <= i < j < |s| :: !Less(key(s[j]), key(s[i]))
  }

  /** The elements whose key is `k`, in order. */
  function WithKey<T>(s: seq<T>, key: T -> string, k: string): seq<T> {
    if s == [] then []
    else WithKey(s[..|s| - 1], key, k) + (if key(s[|s| - 1]) == k then [s[|s| - 1]] else [])
  }

  lemma {:induction false} WithKeyAppend<T>(a: seq<T>, b: seq<T>, key: T -> string, k: string)
    ensures WithKey(a + b, key, k) == WithKey(a, key, k) + WithKey(b, key, k)
    decreases |b|
  {
    if b != [] {
      var b0 := b[..|b| - 1];
      assert (a + b)[..|a + b| - 1] == a + b0;
      WithKeyAppend(a, b0, key, k);
    } else {
      assert a + b == a;
    }
  }

  lemma {:induction false} WithKeyNone<T>(s: seq<T>, key: T -> string, k: string)
    requires forall i | 0 <= i < |s| :: key(s[i]) != k
    ensures WithKey(s, key, k) == []
  {
    if s != [] {
      WithKeyNone(s[..|s| - 1], key, k);
    }
  }

  /** Everything after the insertion point has a key above x's. */
  lemma AfterPos<T(!new)>(x: T, t: seq<T>, cmp: (T, T) -> int, key: T -> string)
    requires Orders(cmp, key) && SortedBy(t, key)
    ensures forall j | Pos(x, t, cmp) <= j < |t| :: Less(key(x), key(t[j]))
  {
    var m := Pos(x, t, cmp);
    forall j | m <= j < |t| ensures Less(key(x), key(t[j])) {
      if j > m {
        LessTotal(key(t[m]), key(t[j]));
        if Less(key(t[m]), key(t[j])) {
          LessTransitive(key(x), key(t[m]), key(t[j]));
        }
      }
    }
  }

  /** `x` placed between the elements it does not precede and the ones it precedes keeps the order. */
  lemma PlaceSorted<T>(front: seq<T>, x: T, back: seq<T>, key: T -> string)
    requires SortedBy(front + back, key)
    requires forall i | 0 <= i < |front| :: !Less(key(x), key(front[i]))
    requires forall j | 0 <= j < |back| :: Less(key(x), key(back[j]))
    ensures SortedBy(front + [x] + back, key)
  {
    var t, r, m := front + back, front + [x] + back, |front|;
    forall i, j | 0 <= i < j < |r| ensures !Less(key(r[j]), key(r[i])) {
      if j == m {
        assert r[i] == front[i];
      } else if i == m {
        assert r[j] == back[j - m - 1];
        LessAsymmetric(key(x), key(back[j - m - 1]));
      } else if j < m {
        assert r[i] == t[i] && r[j] == t[j];
      } else if i > m {
        assert r[i] == t[i - 1] && r[j] == t[j - 1];
      } else {
        assert r[i] == t[i] && r[j] == t[j - 1];
      }
    }
  }

  /** Everything before the insertion point has a key x's does not precede. */
  lemma BeforePos<T(!new)>(x: T, t: seq<T>, cmp: (T, T) -> int, key: T -> string)
    requires Orders(cmp, key)
    ensures forall i | 0 <= i < Pos(x, t, cmp) :: !Less(key(x), key(t[i]))
  {
    forall i | 0 <= i < Pos(x, t, cmp) ensures !Less(key(x), key(t[i])) {
      assert cmp(x, t[i]) == Compare(key(x), key(t[i]));
    }
  }

  lemma InsertSorted<T(!new)>(x: T, t: seq<T>, cmp: (T, T) -> int, key: T -> string)
    requires Orders(cmp, key) && SortedBy(t, key)
    ensures SortedBy(Insert(x, t, cmp), key)
  {
    var m := Pos(x, t, cmp);
    var front, back := t[..m], t[m..];
    assert t == front + back;
    AfterPos(x, t, cmp, key);
    BeforePos(x, t, cmp, key);
    assert forall j | 0 <= j < |back| :: back[j] == t[m + j];
    assert forall i | 0 <= i < |front| :: front[i] == t[i];
    PlaceSorted(front, x, back, key);
  }


  /** Moving `x` past `back` keeps the group of key `k` when `x` is not in it or `back` has none of it. */
  lemma MoveKeepsGroup<T>(front: seq<T>, x: T, back: seq<T>, key: T -> string, k: string)
    requires key(x) != k || WithKey(back, key, k) == []
    ensures WithKey(front + [x] + back, key, k) == WithKey(front + back + [x], key, k)
  {
    WithKeyAppend(front + [x], back, key, k);
    WithKeyAppend(front, [x], key, k);
    WithKeyAppend(front, back, key, k);
    WithKeyAppend(front + back, [x], key, k);
    assert WithKey([x], key, k) == (if key(x) == k then [x] else []) by {
      assert [x][..0] == [];
    }
  }

  lemma InsertStable<T(!new)>(x: T, t: seq<T>, cmp: (T, T) -> int, key: T -> string, k: string)
    requires Orders(cmp, key) && SortedBy(t, key)
    ensures WithKey(Insert(x, t, cmp), key, k) == WithKey(t + [x], key, k)
  {
    var m := Pos(x, t, cmp);
    var front, back := t[..m], t[m..];
    assert t == front + back;
    if key(x) == k {
      AfterPos(x, t, cmp, key);
      forall i | 0 <= i < |back| ensures key(back[i]) != k {
        assert back[i] == t[m + i];
        LessIrreflexive(k);
      }
      WithKeyNone(back, key, k);
    }
    MoveKeepsGroup(front, x, back, key, k);
  }

  /**
   * Sorting with a comparator that orders by a key gives the stable sort:
   * ordered by key, and each group of equal keys in its original order.
   */
  lemma {:induction false} SortByKey<T(!new)>(s: seq<T>, cmp: (T, T) -> int, key: T -> string)
    requires Orders(cmp, key)
    ensures SortedBy(Sort(s, cmp), key)
    ensures forall k :: WithKey(Sort(s, cmp), key, k) == WithKey(s, key, k)
  {
    if s != [] {
      var init := s[..|s| - 1];
      var x := s[|s| - 1];
      SortByKey(init, cmp, key);
      var t := Sort(init, cmp);
      InsertSorted(x, t, cmp, key);
      forall k ensures WithKey(Sort(s, cmp), key, k) == WithKey(s, key, k) {
        InsertStable(x, t, cmp, key, k);
        WithKeyAppend(t, [x], key, k);
        WithKeyAppend(init, [x], key, k);
        assert init + [x] == s;
      }
    }
  }

  // ---------------------------------------------------------------------------
  // Distinct elements, and `reverse()`.

  ghost predicate Distinct<T>(s: seq<T>) {
    forall i, j | 0 <= i < j < |s| :: s[i] != s[j]
  }

  lemma {:induction false} DistinctCount<T>(s: seq<T>, x: T)
    requires Distinct(s)
    ensures multiset(s)[x] <= 1
  {
    if s != [] {
      var init := s[..|s| - 1];
      assert s == init + [s[|s| - 1]];
      assert Distinct(init);
      DistinctCount(init, x);
      if x == s[|s| - 1] {
        assert x !in init by {
          forall i | 0 <= i < |init| ensures init[i] != x {
            assert s[i] != s[|s| - 1];
          }
        }
      }
    }
  }

  /** A rearrangement of distinct elements has distinct elements. */
  lemma DistinctPermutation<T>(a: seq<T>, b: seq<T>)
    requires Distinct(a) && multiset(a) == multiset(b)
    ensures Distinct(b)
  {
    forall i, j | 0 <= i < j < |b| ensures b[i] != b[j] {
      if b[i] == b[j] {
        var x := b[i];
        assert b == b[..i] + [x] + b[i + 1..j] + [x] + b[j + 1..];
        assert multiset(b)[x] >= 2;
        DistinctCount(a, x);
      }
    }
  }

  function Reverse<T>(s: seq<T>): (r: seq<T>)
    ensures |r| == |s| && forall i | 0 <= i < |s| :: r[i] == s[|s| - 1 - i]
  {
    seq(|s|, i requires 0 <= i < |s| => s[|s| - 1 - i])
  }

  /** Reversing an increasing list gives a decreasing one. */
  lemma ReverseDescending(s: seq<string>)
    requires forall i, j | 0 <= i < j < |s| :: Less(s[i], s[j])
    ensures var r := Reverse(s); forall i, j | 0 <= i < j < |r| :: Less(r[j], r[i])
  {
    var r := Reverse(s);
    forall i, j | 0 <= i < j < |r| ensures Less(r[j], r[i]) {
      assert r[j] == s[|s| - 1 - j] && r[i] == s[|s| - 1 - i];
    }
  }

  /** `strings.sort()` with the default comparison. */
  function SortStrings(s: seq<string>): seq<string> {
    Sort(s, (a, b) => Compare(a, b))
  }

  /** Sorting distinct strings puts them in strictly ascending order, keeping every one. */
  lemma SortStringsAscending(s: seq<string>)
    requires Distinct(s)
    ensures multiset(SortStrings(s)) == multiset(s)
    ensures Distinct(SortStrings(s))
    ensures var r := SortStrings(s); forall i, j | 0 <= i < j < |r| :: Less(r[i], r[j])
  {
    var cmp := (a: string, b: string) => Compare(a, b);
    var key := (a: string) => a;
    var r := Sort(s, cmp);
    assert Orders(cmp, key);
    SortByKey(s, cmp, key);
    assert SortedBy(r, key);
    SortPermutes(s, cmp);
    DistinctPermutation(s, r);
    forall i, j | 0 <= i < j < |r| ensures Less(r[i], r[j]) {
      assert !Less(key(r[j]), key(r[i]));
      LessTotal(r[i], r[j]);
    }
  }
}
