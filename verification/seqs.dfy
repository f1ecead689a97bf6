/** Sequence operations the components share: JavaScript's `Array.prototype.filter`
    (by element and by index) and a stable sort by an integer key, which is how
    the store's `order(...)` is modelled. */
module Seqs {

  /** No element occurs twice. */
  ghost predicate NoDup<T>(s: seq<T>) {
    forall i, j :: 0 <= i < j < |s| ==> s[i] != s[j]
  }

  /** `r` can be obtained from `s` by deleting elements (greedy matching). */
  ghost predicate Subseq<T>(r: seq<T>, s: seq<T>)
    decreases |s|
  {
    if |r| == 0 then true
    else if |s| == 0 then false
    else if r[0] == s[0] then Subseq(r[1..], s[1..])
    else Subseq(r, s[1..])
  }

  /** The elements of `s` that `keep` accepts, in their original order. */
  function Filter<T(!new)>(s: seq<T>, keep: T -> bool): (r: seq<T>)
    ensures |r| <= |s|
    ensures forall x :: x in r <==> x in s && keep(x)
    ensures forall x :: multiset(r)[x] == if keep(x) then multiset(s)[x] else 0
    decreases |s|
  {
    if |s| == 0 then []
    else
      var rest := Filter(s[1..], keep);
      assert s == [s[0]] + s[1..];
      if keep(s[0]) then [s[0]] + rest else rest
  }

  /** Filtering distributes over concatenation: appending never reorders what was kept. */
  lemma {:induction false} FilterConcat<T(!new)>(a: seq<T>, b: seq<T>, keep: T -> bool)
    ensures Filter(a + b, keep) == Filter(a, keep) + Filter(b, keep)
    decreases |a|
  {
    if |a| == 0 {
      assert a + b == b;
    } else {
      var ab := a + b;
      assert ab[0] == a[0] && ab[1..] == a[1..] + b;
      FilterConcat(a[1..], b, keep);
      FilterHead(ab, keep);
      FilterHead(a, keep);
      if keep(a[0]) {
        AppendAssoc([a[0]], Filter(a[1..], keep), Filter(b, keep));
      }
    }
  }

  lemma AppendAssoc<T>(a: seq<T>, b: seq<T>, c: seq<T>)
    ensures a + (b + c) == (a + b) + c
  {
  }

  /** When every element is kept, filtering is the identity. */
  lemma {:induction false} FilterAllKept<T(!new)>(s: seq<T>, keep: T -> bool)
    requires forall i :: 0 <= i < |s| ==> keep(s[i])
    ensures Filter(s, keep) == s
    decreases |s|
  {
    if |s| > 0 {
      FilterAllKept(s[1..], keep);
    }
  }

  /** Nothing is kept when no element passes. */
  lemma {:induction false} FilterNoneKept<T(!new)>(s: seq<T>, keep: T -> bool)
    requires forall i :: 0 <= i < |s| ==> !keep(s[i])
    ensures Filter(s, keep) == []
    decreases |s|
  {
    if |s| > 0 {
      FilterNoneKept(s[1..], keep);
    }
  }

  /** The kept elements form a subsequence of the input. */
  lemma {:induction false} FilterIsSubseq<T(!new)>(s: seq<T>, keep: T -> bool)
    ensures Subseq(Filter(s, keep), s)
    decreases |s|
  {
    if |s| > 0 {
      FilterIsSubseq(s[1..], keep);
    }
  }

  /** A duplicate-free list stays duplicate-free after filtering. */
  lemma {:induction false} FilterKeepsNoDup<T(!new)>(s: seq<T>, keep: T -> bool)
    requires NoDup(s)
    ensures NoDup(Filter(s, keep))
    decreases |s|
  {
    if |s| > 0 {
      TailNoDup(s);
      FilterKeepsNoDup(s[1..], keep);
      FilterHead(s, keep);
      if keep(s[0]) {
        ConsNoDup(s[0], Filter(s[1..], keep));
      }
    }
  }

  /** The tail of a duplicate-free list is duplicate-free and lacks the head. */
  lemma TailNoDup<T>(s: seq<T>)
    requires NoDup(s) && |s| > 0
    ensures NoDup(s[1..]) && s[0] !in s[1..]
  {
    forall i, j | 0 <= i < j < |s[1..]| ensures s[1..][i] != s[1..][j] {
      assert s[1..][i] == s[i + 1] && s[1..][j] == s[j + 1];
    }
    forall k | 0 <= k < |s[1..]| ensures s[1..][k] != s[0] {
      assert s[1..][k] == s[k + 1];
    }
  }

  /** A new head keeps a duplicate-free list duplicate-free. */
  lemma ConsNoDup<T>(y: T, v: seq<T>)
    requires NoDup(v) && y !in v
    ensures NoDup([y] + v)
  {
    var r := [y] + v;
    forall i, j | 0 <= i < j < |r| ensures r[i] != r[j] {
      assert r[j] == v[j - 1];
      if i > 0 {
        assert r[i] == v[i - 1];
      }
    }
  }

  /** `s` without the element at position `index - offset`: the elements are
      numbered from `offset`, and exactly the one numbered `index` is dropped
      (`filter((_, i) => i !== index)` when `offset` is 0). */
  function DropNumbered<T>(s: seq<T>, index: int, offset: int): (r: seq<T>)
    ensures offset <= index < offset + |s| ==> r == s[..index - offset] + s[index - offset + 1..]
    ensures !(offset <= index < offset + |s|) ==> r == s
    decreases |s|
  {
    if |s| == 0 then []
    else
      var rest := DropNumbered(s[1..], index, offset + 1);
      if offset == index then
        assert s[..0] + s[1..] == s[1..];
        rest
      else if offset < index < offset + |s| then
        DropBehindHead(s, index - offset);
        [s[0]] + rest
      else
        ConsTail(s);
        [s[0]] + rest
  }

  lemma ConsTail<T>(s: seq<T>)
    requires |s| > 0
    ensures [s[0]] + s[1..] == s
  {
  }

  /** Dropping position `k > 0` keeps the head in front of the tail with position `k - 1` dropped. */
  lemma DropBehindHead<T>(s: seq<T>, k: int)
    requires 0 < k < |s|
    ensures [s[0]] + (s[1..][..k - 1] + s[1..][k..]) == s[..k] + s[k + 1..]
  {
    var a := [s[0]] + (s[1..][..k - 1] + s[1..][k..]);
    var b := s[..k] + s[k + 1..];
    forall i | 0 <= i < |a| ensures a[i] == b[i] {
      if i == 0 {
      } else if i < k {
        assert a[i] == s[1..][i - 1] == s[i];
      } else {
        assert a[i] == s[1..][i] == s[i + 1];
      }
    }
  }

  /** JavaScript's `filter((_, i) => i !== index)`: removes position `index` if it exists. */
  function DropIndex<T>(s: seq<T>, index: int): (r: seq<T>)
    ensures 0 <= index < |s| ==> |r| == |s| - 1 && r == s[..index] + s[index + 1..]
    ensures !(0 <= index < |s|) ==> r == s
  {
    DropNumbered(s, index, 0)
  }

  /** Applies `f` to every element, keeping positions (`Array.prototype.map`). */
  function Map<T, U>(s: seq<T>, f: T -> U): (r: seq<U>)
    ensures |r| == |s|
    ensures forall i :: 0 <= i < |s| ==> r[i] == f(s[i])
    decreases |s|
  {
    if |s| == 0 then [] else [f(s[0])] + Map(s[1..], f)
  }

  /** Keys never decrease along `s`. */
  ghost predicate SortedBy<T>(s: seq<T>, key: T -> int) {
    forall i, j :: 0 <= i < j < |s| ==> key(s[i]) <= key(s[j])
  }

  /** Every key along `s` is at least `b`. */
  ghost predicate KeysAtLeast<T>(s: seq<T>, key: T -> int, b: int) {
    forall i :: 0 <= i < |s| ==> b <= key(s[i])
  }

  /** Places `x` in front of the first element whose key is at least its own. */
  function InsertBy<T>(x: T, s: seq<T>, key: T -> int): (r: seq<T>)
    requires SortedBy(s, key)
    ensures SortedBy(r, key)
    ensures multiset(r) == multiset(s) + multiset{x}
    ensures |r| == |s| + 1
    ensures |s| > 0 && key(x) <= key(s[0]) ==> KeysAtLeast(r, key, key(x))
    ensures |s| > 0 && key(x) > key(s[0]) ==> KeysAtLeast(r, key, key(s[0]))
    decreases |s|
  {
    if |s| == 0 || key(x) <= key(s[0]) then
      SortedBound(s, key, key(x));
      ConsSorted(x, s, key);
      assert multiset([x] + s) == multiset{x} + multiset(s);
      [x] + s
    else
      var rest := InsertBy(x, s[1..], key);
      SortedTail(s, key);
      RestBound(x, s[1..], rest, key, key(s[0]));
      ConsSorted(s[0], rest, key);
      MultisetHead(s);
      [s[0]] + rest
  }

  /** A non-empty sequence holds its head and the elements of its tail. */
  lemma MultisetHead<T>(s: seq<T>)
    requires |s| > 0
    ensures multiset(s) == multiset{s[0]} + multiset(s[1..])
  {
    assert s == [s[0]] + s[1..];
  }

  /** A sorted sequence whose first key is at least `b` has every key at least `b`. */
  lemma SortedBound<T>(s: seq<T>, key: T -> int, b: int)
    requires SortedBy(s, key)
    requires |s| > 0 ==> b <= key(s[0])
    ensures KeysAtLeast(s, key, b)
  {
  }

  /** The keys after inserting `x` into `t` stay at least any bound below
      `key(x)` and the keys of `t`. */
  lemma RestBound<T>(x: T, t: seq<T>, rest: seq<T>, key: T -> int, b: int)
    requires KeysAtLeast(t, key, b) && b < key(x)
    requires |t| > 0 && key(x) <= key(t[0]) ==> KeysAtLeast(rest, key, key(x))
    requires |t| > 0 && key(x) > key(t[0]) ==> KeysAtLeast(rest, key, key(t[0]))
    requires |t| == 0 ==> rest == [x]
    ensures KeysAtLeast(rest, key, b)
  {
  }

  /** Putting `y` in front of a sorted sequence whose keys are all at least
      `key(y)` keeps it sorted. */
  lemma ConsSorted<T>(y: T, s: seq<T>, key: T -> int)
    requires SortedBy(s, key) && KeysAtLeast(s, key, key(y))
    ensures SortedBy([y] + s, key) && KeysAtLeast([y] + s, key, key(y))
  {
    var r := [y] + s;
    forall i, j | 0 <= i < j < |r| ensures key(r[i]) <= key(r[j]) {
      assert r[j] == s[j - 1];
      if i > 0 {
        assert r[i] == s[i - 1];
      }
    }
    forall i | 0 <= i < |r| ensures key(y) <= key(r[i]) {
      if i > 0 {
        assert r[i] == s[i - 1];
      }
    }
  }

  /** Stable insertion sort by ascending key: elements with equal keys keep
      their relative order. */
  function SortBy<T>(s: seq<T>, key: T -> int): (r: seq<T>)
    ensures SortedBy(r, key)
    ensures multiset(r) == multiset(s)
    ensures |r| == |s|
    decreases |s|
  {
    if |s| == 0 then []
    else
      MultisetHead(s);
      InsertBy(s[0], SortBy(s[1..], key), key)
  }

  /** Sorting what is already sorted changes nothing. */
  lemma {:induction false} SortedIsFixed<T>(s: seq<T>, key: T -> int)
    requires SortedBy(s, key)
    ensures SortBy(s, key) == s
    decreases |s|
  {
    if |s| > 0 {
      SortedIsFixed(s[1..], key);
      assert SortBy(s[1..], key) == s[1..];
      if |s| > 1 {
        assert key(s[0]) <= key(s[1..][0]);
      }
      assert s == [s[0]] + s[1..];
    }
  }

  lemma {:induction false} InsertBeforeAll<T>(x: T, s: seq<T>, key: T -> int)
    requires SortedBy(s, key)
    requires forall i :: 0 <= i < |s| ==> key(x) <= key(s[i])
    ensures InsertBy(x, s, key) == [x] + s
  {
  }

  lemma {:induction false} FilterKeepsBound<T(!new)>(s: seq<T>, keep: T -> bool, key: T -> int, b: int)
    requires KeysAtLeast(s, key, b)
    ensures KeysAtLeast(Filter(s, keep), key, b)
    decreases |s|
  {
    if |s| > 0 {
      FilterKeepsBound(s[1..], keep, key, b);
    }
  }

  lemma {:induction false} FilterKeepsSorted<T(!new)>(s: seq<T>, keep: T -> bool, key: T -> int)
    requires SortedBy(s, key)
    ensures SortedBy(Filter(s, keep), key)
    decreases |s|
  {
    if |s| > 0 {
      FilterKeepsSorted(s[1..], keep, key);
      FilterKeepsBound(s[1..], keep, key, key(s[0]));
    }
  }

  lemma SortedTail<T>(s: seq<T>, key: T -> int)
    requires SortedBy(s, key) && |s| > 0
    ensures SortedBy(s[1..], key)
    ensures KeysAtLeast(s[1..], key, key(s[0]))
  {
  }

  lemma {:induction false} InsertFilterKept<T(!new)>(x: T, u: seq<T>, keep: T -> bool, key: T -> int)
    requires SortedBy(u, key)
    requires keep(x)
    ensures SortedBy(Filter(u, keep), key)
    ensures InsertBy(x, Filter(u, keep), key) == Filter(InsertBy(x, u, key), keep)
    decreases |u|
  {
    FilterKeepsSorted(u, keep, key);
    if |u| > 0 {
      if key(x) <= key(u[0]) {
        InsertFilterKeptFront(x, u, keep, key);
      } else {
        SortedTail(u, key);
        InsertFilterKept(x, u[1..], keep, key);
        InsertFilterKeptBehind(x, u, keep, key);
      }
    }
  }

  /** The kept element goes in front of the filtered list exactly when it goes in
      front of the unfiltered one. */
  lemma InsertFilterKeptFront<T(!new)>(x: T, u: seq<T>, keep: T -> bool, key: T -> int)
    requires SortedBy(u, key) && keep(x)
    requires |u| > 0 && key(x) <= key(u[0])
    ensures SortedBy(Filter(u, keep), key)
    ensures InsertBy(x, Filter(u, keep), key) == Filter(InsertBy(x, u, key), keep)
  {
    assert InsertBy(x, u, key) == [x] + u;
    assert ([x] + u)[1..] == u;
    assert Filter([x] + u, keep) == [x] + Filter(u, keep);
    SortedBound(u, key, key(x));
    FilterKeepsBound(u, keep, key, key(x));
    FilterKeepsSorted(u, keep, key);
    InsertBeforeAll(x, Filter(u, keep), key);
  }

  /** The step case: behind the head, insertion and filtering commute on the tail. */
  lemma InsertFilterKeptBehind<T(!new)>(x: T, u: seq<T>, keep: T -> bool, key: T -> int)
    requires SortedBy(u, key) && keep(x)
    requires |u| > 0 && key(x) > key(u[0])
    requires SortedBy(u[1..], key) && SortedBy(Filter(u[1..], keep), key)
    requires InsertBy(x, Filter(u[1..], keep), key) == Filter(InsertBy(x, u[1..], key), keep)
    ensures SortedBy(Filter(u, keep), key)
    ensures InsertBy(x, Filter(u, keep), key) == Filter(InsertBy(x, u, key), keep)
  {
    var y, v := u[0], u[1..];
    var iv := InsertBy(x, v, key);
    var w := InsertBy(x, u, key);
    InsertByBehind(x, u, key);
    assert w[0] == y && w[1..] == iv;
    FilterHead(w, keep);
    FilterHead(u, keep);
    FilterKeepsSorted(u, keep, key);
    if keep(y) {
      var fu := Filter(u, keep);
      assert fu[0] == y && fu[1..] == Filter(v, keep);
      InsertByBehind(x, fu, key);
    }
  }

  /** Filtering a non-empty sequence, one step unfolded. */
  lemma FilterHead<T(!new)>(s: seq<T>, keep: T -> bool)
    requires |s| > 0
    ensures Filter(s, keep) == if keep(s[0]) then [s[0]] + Filter(s[1..], keep) else Filter(s[1..], keep)
  {
  }

  /** An element with a larger key than the head is inserted behind it. */
  lemma InsertByBehind<T>(x: T, s: seq<T>, key: T -> int)
    requires SortedBy(s, key) && |s| > 0 && key(x) > key(s[0])
    ensures SortedBy(s[1..], key)
    ensures InsertBy(x, s, key) == [s[0]] + InsertBy(x, s[1..], key)
  {
    SortedTail(s, key);
  }

  lemma {:induction false} InsertFilterDropped<T(!new)>(x: T, u: seq<T>, keep: T -> bool, key: T -> int)
    requires SortedBy(u, key)
    requires !keep(x)
    ensures Filter(InsertBy(x, u, key), keep) == Filter(u, keep)
    decreases |u|
  {
    if |u| > 0 {
      var y, v := u[0], u[1..];
      assert u == [y] + v;
      if key(x) <= key(y) {
        assert InsertBy(x, u, key) == [x] + u;
        assert ([x] + u)[1..] == u;
      } else {
        InsertFilterDropped(x, v, keep, key);
        assert InsertBy(x, u, key) == [y] + InsertBy(x, v, key);
        assert ([y] + InsertBy(x, v, key))[1..] == InsertBy(x, v, key);
      }
    }
  }

  /** Filtering commutes with the stable sort: deleting rows and re-sorting gives
      the same list as deleting the rows from the sorted list. */
  lemma {:induction false} SortFilterCommute<T(!new)>(s: seq<T>, keep: T -> bool, key: T -> int)
    ensures SortBy(Filter(s, keep), key) == Filter(SortBy(s, key), keep)
    decreases |s|
  {
    if |s| > 0 {
      assert s == [s[0]] + s[1..];
      SortFilterCommute(s[1..], keep, key);
      var sorted := SortBy(s[1..], key);
      if keep(s[0]) {
        assert Filter(s, keep) == [s[0]] + Filter(s[1..], keep);
        InsertFilterKept(s[0], sorted, keep, key);
      } else {
        assert Filter(s, keep) == Filter(s[1..], keep);
        InsertFilterDropped(s[0], sorted, keep, key);
      }
    }
  }

  lemma MapKeepsSorted<T>(u: seq<T>, f: T -> T, key: T -> int)
    requires SortedBy(u, key)
    requires forall y :: key(f(y)) == key(y)
    ensures SortedBy(Map(u, f), key)
  {
    var m := Map(u, f);
    forall i, j | 0 <= i < j < |m| ensures key(m[i]) <= key(m[j]) {
      assert key(m[i]) == key(f(u[i])) == key(u[i]);
      assert key(m[j]) == key(f(u[j])) == key(u[j]);
    }
  }

  lemma {:induction false} InsertMap<T>(x: T, u: seq<T>, f: T -> T, key: T -> int)
    requires SortedBy(u, key)
    requires forall y :: key(f(y)) == key(y)
    ensures SortedBy(Map(u, f), key)
    ensures InsertBy(f(x), Map(u, f), key) == Map(InsertBy(x, u, key), f)
    decreases |u|, 1
  {
    MapKeepsSorted(u, f, key);
    if |u| > 0 {
      if key(x) <= key(u[0]) {
        InsertMapFront(x, u, f, key);
      } else {
        InsertMapBehind(x, u, f, key);
      }
    }
  }

  /** The mapped element goes in front exactly when the original does. */
  lemma InsertMapFront<T>(x: T, u: seq<T>, f: T -> T, key: T -> int)
    requires SortedBy(u, key)
    requires forall y :: key(f(y)) == key(y)
    requires |u| > 0 && key(x) <= key(u[0])
    ensures SortedBy(Map(u, f), key)
    ensures InsertBy(f(x), Map(u, f), key) == Map(InsertBy(x, u, key), f)
  {
    MapKeepsSorted(u, f, key);
    var mu := Map(u, f);
    var w := InsertBy(x, u, key);
    assert key(f(x)) == key(x) && key(mu[0]) == key(f(u[0])) == key(u[0]);
    assert w == [x] + u;
    assert InsertBy(f(x), mu, key) == [f(x)] + mu;
    ConsParts(x, u);
    ConsParts(f(x), mu);
    MapHead(w, f);
    HeadTail(Map(w, f), [f(x)] + mu);
  }

  lemma ConsParts<T>(y: T, v: seq<T>)
    ensures ([y] + v)[0] == y && ([y] + v)[1..] == v
  {
  }

  /** The step case: behind the head, insertion and mapping commute on the tail. */
  lemma {:induction false} InsertMapBehind<T>(x: T, u: seq<T>, f: T -> T, key: T -> int)
    requires SortedBy(u, key)
    requires forall y :: key(f(y)) == key(y)
    requires |u| > 0 && key(x) > key(u[0])
    ensures SortedBy(Map(u, f), key)
    ensures InsertBy(f(x), Map(u, f), key) == Map(InsertBy(x, u, key), f)
    decreases |u|, 0
  {
    MapKeepsSorted(u, f, key);
    SortedTail(u, key);
    InsertMap(x, u[1..], f, key);
    var mu := Map(u, f);
    var w := InsertBy(x, u, key);
    assert key(f(x)) == key(x) && key(mu[0]) == key(f(u[0])) == key(u[0]);
    InsertByBehind(x, u, key);
    assert w[0] == u[0] && w[1..] == InsertBy(x, u[1..], key);
    MapHead(u, f);
    InsertByBehind(f(x), mu, key);
    MapHead(w, f);
    HeadTail(Map(w, f), InsertBy(f(x), mu, key));
  }

  /** Mapping a non-empty sequence, one step unfolded. */
  lemma MapHead<T, U>(s: seq<T>, f: T -> U)
    requires |s| > 0
    ensures Map(s, f)[0] == f(s[0]) && Map(s, f)[1..] == Map(s[1..], f)
  {
  }

  /** Sequences with the same head and the same tail are equal. */
  lemma HeadTail<T>(a: seq<T>, b: seq<T>)
    requires |a| > 0 && |b| > 0 && a[0] == b[0] && a[1..] == b[1..]
    ensures a == b
  {
    assert a == [a[0]] + a[1..];
    assert b == [b[0]] + b[1..];
  }

  /** Mapping a key-preserving update commutes with the stable sort. */
  lemma {:induction false} SortMapCommute<T>(s: seq<T>, f: T -> T, key: T -> int)
    requires forall y :: key(f(y)) == key(y)
    ensures SortBy(Map(s, f), key) == Map(SortBy(s, key), f)
    decreases |s|
  {
    if |s| > 0 {
      assert s == [s[0]] + s[1..];
      assert Map(s, f) == [f(s[0])] + Map(s[1..], f);
      assert Map(s, f)[1..] == Map(s[1..], f);
      SortMapCommute(s[1..], f, key);
      InsertMap(s[0], SortBy(s[1..], key), f, key);
    }
  }

  /** Elements whose key is `k`. */
  function HasKey<T>(key: T -> int, k: int): T -> bool {
    x => key(x) == k
  }

  /** The sort is stable: the elements sharing any one key come out in the order
      they went in. */
  lemma SortIsStable<T(!new)>(s: seq<T>, key: T -> int, k: int)
    ensures Filter(SortBy(s, key), HasKey(key, k)) == Filter(s, HasKey(key, k))
  {
    var same := Filter(s, HasKey(key, k));
    forall i, j | 0 <= i < j < |same| ensures key(same[i]) <= key(same[j]) {
      assert same[i] in same && same[j] in same;
    }
    SortedIsFixed(same, key);
    SortFilterCommute(s, HasKey(key, k), key);
  }

  /** Mapping distributes over concatenation. */
  lemma MapConcat<T, U>(a: seq<T>, b: seq<T>, f: T -> U)
    ensures Map(a + b, f) == Map(a, f) + Map(b, f)
  {
    var ab, ma, mb := a + b, Map(a, f), Map(b, f);
    var l, r := Map(ab, f), ma + mb;
    assert |l| == |r|;
    forall i | 0 <= i < |l| ensures l[i] == r[i] {
      if i < |a| {
        assert l[i] == f(ab[i]) && ab[i] == a[i] && r[i] == ma[i];
      } else {
        assert l[i] == f(ab[i]) && ab[i] == b[i - |a|] && r[i] == mb[i - |a|];
      }
    }
  }

  /** Mapping two rearrangements of the same elements gives rearrangements of the
      same results. */
  lemma {:induction false} MapPermutation<T, U>(s: seq<T>, t: seq<T>, f: T -> U)
    requires multiset(s) == multiset(t)
    ensures multiset(Map(s, f)) == multiset(Map(t, f))
    decreases |s|
  {
    if |s| > 0 {
      var x := s[0];
      assert x in multiset(t);
      var k :| 0 <= k < |t| && t[k] == x;
      PickOut(t, k);
      TailMultiset(s);
      MapPermutation(s[1..], t[..k] + t[k + 1..], f);
      MapPickOut(t, k, f);
      MapMultisetHead(s, f);
    }
  }

  lemma TailMultiset<T>(s: seq<T>)
    requires |s| > 0
    ensures multiset(s[1..]) == multiset(s) - multiset{s[0]}
  {
    MultisetHead(s);
  }

  lemma MapMultisetHead<T, U>(s: seq<T>, f: T -> U)
    requires |s| > 0
    ensures multiset(Map(s, f)) == multiset(Map(s[1..], f)) + multiset{f(s[0])}
  {
    MapHead(s, f);
    MultisetHead(Map(s, f));
  }

  /** Taking out the element at `k` takes one copy of it out of the multiset. */
  lemma PickOut<T>(t: seq<T>, k: int)
    requires 0 <= k < |t|
    ensures multiset(t[..k] + t[k + 1..]) == multiset(t) - multiset{t[k]}
  {
    var a, b := t[..k], t[k + 1..];
    assert t == a + [t[k]] + b;
    assert multiset(t) == multiset(a) + multiset{t[k]} + multiset(b);
  }

  /** Mapping after taking out the element at `k` loses exactly its image. */
  lemma MapPickOut<T, U>(t: seq<T>, k: int, f: T -> U)
    requires 0 <= k < |t|
    ensures multiset(Map(t, f)) == multiset(Map(t[..k] + t[k + 1..], f)) + multiset{f(t[k])}
  {
    var a, b := t[..k], t[k + 1..];
    var ma, mb := Map(a, f), Map(b, f);
    MapSplit(t, k, f);
    MapConcat(a, b, f);
    assert multiset(Map(a + b, f)) == multiset(ma) + multiset(mb);
  }

  /** Mapping `t` is mapping the part before `k`, the element at `k` and the part after. */
  lemma MapSplit<T, U>(t: seq<T>, k: int, f: T -> U)
    requires 0 <= k < |t|
    ensures Map(t, f) == Map(t[..k], f) + [f(t[k])] + Map(t[k + 1..], f)
  {
    var ma, mb := Map(t[..k], f), Map(t[k + 1..], f);
    var l, r := Map(t, f), ma + [f(t[k])] + mb;
    assert |l| == |r|;
    forall i | 0 <= i < |l| ensures l[i] == r[i] {
      if i < k {
        assert r[i] == ma[i] == f(t[i]);
      } else if i > k {
        assert r[i] == mb[i - k - 1] == f(t[i]);
      }
    }
  }
}
