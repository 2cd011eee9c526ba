/** Python's ordering of text and its stable `sorted`, which the release scripts rely on. */
module Ordering {
  /** Lexicographic order by code point. */
  predicate Leq(a: string, b: string) {
    a == [] || (b != [] && (a[0] < b[0] || (a[0] == b[0] && Leq(a[1..], b[1..]))))
  }

  /** Either text `a` is where `b` begins, or at the first place where they differ `a` has the lesser character. */
  lemma {:induction false} LeqIsLexicographic(a: string, b: string)
    ensures Leq(a, b) <==>
              || (|a| <= |b| && b[..|a|] == a)
              || exists i :: 0 <= i < |a| && i < |b| && a[..i] == b[..i] && a[i] < b[i]
  {
    if a == [] || b == [] {
    } else if a[0] != b[0] {
      assert a[..0] == b[..0];
      forall i | 0 < i < |a| && i < |b| ensures a[..i] != b[..i] {
        assert a[..i][0] != b[..i][0];
      }
      assert |a| <= |b| ==> b[..|a|][0] != a[0];
    } else {
      LeqIsLexicographic(a[1..], b[1..]);
      SamePrefixes(a, b);
    }
  }

  lemma SamePrefixes(a: string, b: string)
    requires a != [] && b != [] && a[0] == b[0]
    ensures |a| <= |b| ==> (b[..|a|] == a <==> b[1..][..|a| - 1] == a[1..])
    ensures (exists i :: 0 <= i < |a| && i < |b| && a[..i] == b[..i] && a[i] < b[i]) <==>
            (exists i :: 0 <= i < |a| - 1 && i < |b| - 1 && a[1..][..i] == b[1..][..i] && a[1..][i] < b[1..][i])
  {
    assert a == [a[0]] + a[1..] && b == [b[0]] + b[1..];
    if |a| <= |b| {
      assert b[..|a|] == [b[0]] + b[1..][..|a| - 1];
    }
    forall i | 0 < i < |a| && i < |b| ensures a[..i] == b[..i] <==> a[1..][..i - 1] == b[1..][..i - 1] {
      assert a[..i] == [a[0]] + a[1..][..i - 1] && b[..i] == [b[0]] + b[1..][..i - 1];
    }
    if i: int :| 0 <= i < |a| && i < |b| && a[..i] == b[..i] && a[i] < b[i] {
      assert a[1..][i - 1] == a[i] && b[1..][i - 1] == b[i];
    }
    if i: int :| 0 <= i < |a| - 1 && i < |b| - 1 && a[1..][..i] == b[1..][..i] && a[1..][i] < b[1..][i] {
      assert a[1..][i] == a[i + 1] && b[1..][i] == b[i + 1];
      assert a[..i + 1] == b[..i + 1];
    }
  }

  lemma {:induction false} LeqTotal(a: string, b: string)
    ensures Leq(a, b) || Leq(b, a)
    ensures Leq(a, b) && Leq(b, a) ==> a == b
  {
    if a == [] || b == [] || a[0] != b[0] {
    } else {
      LeqTotal(a[1..], b[1..]);
      assert a == [a[0]] + a[1..] && b == [b[0]] + b[1..];
    }
  }

  lemma {:induction false} LeqTransitive(a: string, b: string, c: string)
    requires Leq(a, b) && Leq(b, c)
    ensures Leq(a, c)
  {
    if a == [] || a[0] != b[0] || b[0] != c[0] {
    } else {
      LeqTransitive(a[1..], b[1..], c[1..]);
    }
  }

  lemma LeqReflexive(a: string)
    ensures Leq(a, a)
  {
    LeqTotal(a, a);
  }

  // ------------------------------------------------------------ stable sorting

  /** Insert `x` in front of the first element with a key no smaller. */
  function Insert<T>(x: T, xs: seq<T>, key: T -> string): seq<T> {
    if xs == [] then [x]
    else if Leq(key(x), key(xs[0])) then [x] + xs
    else [xs[0]] + Insert(x, xs[1..], key)
  }

  /** `sorted(xs, key=key)`. */
  function SortBy<T>(xs: seq<T>, key: T -> string): seq<T> {
    if xs == [] then [] else Insert(xs[0], SortBy(xs[1..], key), key)
  }

  /** Each element is followed only by elements with keys no smaller. */
  ghost predicate IsSorted<T>(xs: seq<T>, key: T -> string) {
    forall i, j :: 0 <= i < j < |xs| ==> Leq(key(xs[i]), key(xs[j]))
  }

  /** The elements with a given key, in order. */
  function WithKey<T>(xs: seq<T>, key: T -> string, k: string): seq<T> {
    if xs == [] then []
    else (if key(xs[0]) == k then [xs[0]] else []) + WithKey(xs[1..], key, k)
  }

  /** A sorted sequence stays sorted behind an element with a key no greater. */
  lemma SortedBehind<T>(x: T, xs: seq<T>, key: T -> string)
    requires IsSorted(xs, key) && forall y :: y in xs ==> Leq(key(x), key(y))
    ensures IsSorted([x] + xs, key)
  {
  }

  lemma {:induction false} InsertKeepsElements<T>(x: T, xs: seq<T>, key: T -> string)
    ensures multiset(Insert(x, xs, key)) == multiset(xs) + multiset{x}
  {
    if xs == [] || Leq(key(x), key(xs[0])) {
    } else {
      assert xs == [xs[0]] + xs[1..];
      InsertKeepsElements(x, xs[1..], key);
    }
  }

  lemma {:induction false} InsertSorts<T>(x: T, xs: seq<T>, key: T -> string)
    requires IsSorted(xs, key)
    ensures IsSorted(Insert(x, xs, key), key)
  {
    if xs == [] {
    } else if Leq(key(x), key(xs[0])) {
      forall y | y in xs ensures Leq(key(x), key(y)) {
        var j :| 0 <= j < |xs| && xs[j] == y;
        if j > 0 { LeqTransitive(key(x), key(xs[0]), key(xs[j])); }
      }
      SortedBehind(x, xs, key);
    } else {
      InsertSorts(x, xs[1..], key);
      InsertKeepsElements(x, xs[1..], key);
      var t := Insert(x, xs[1..], key);
      LeqTotal(key(x), key(xs[0]));
      forall y | y in t ensures Leq(key(xs[0]), key(y)) {
        assert y in multiset(t);
        assert y == x || y in xs[1..];
      }
      SortedBehind(xs[0], t, key);
    }
  }

  lemma {:induction false} SortBySorts<T>(xs: seq<T>, key: T -> string)
    ensures multiset(SortBy(xs, key)) == multiset(xs)
    ensures IsSorted(SortBy(xs, key), key)
  {
    if xs == [] {
    } else {
      assert xs == [xs[0]] + xs[1..];
      SortBySorts(xs[1..], key);
      InsertSorts(xs[0], SortBy(xs[1..], key), key);
      InsertKeepsElements(xs[0], SortBy(xs[1..], key), key);
    }
  }

  lemma WithKeyOfCons<T>(x: T, xs: seq<T>, key: T -> string, k: string)
    ensures WithKey([x] + xs, key, k) == (if key(x) == k then [x] else []) + WithKey(xs, key, k)
  {
    assert ([x] + xs)[1..] == xs;
  }

  lemma EmptyCommutes<T>(a: seq<T>, b: seq<T>, rest: seq<T>)
    requires a == [] || b == []
    ensures a + (b + rest) == b + (a + rest)
  {
    assert a == [] ==> a + (b + rest) == b + rest && a + rest == rest;
    assert b == [] ==> b + (a + rest) == a + rest && b + rest == rest;
  }

  lemma {:induction false} InsertIsStable<T>(x: T, xs: seq<T>, key: T -> string, k: string)
    ensures WithKey(Insert(x, xs, key), key, k) == (if key(x) == k then [x] else []) + WithKey(xs, key, k)
  {
    WithKeyOfCons(x, xs, key, k);
    if xs == [] {
      assert [x] + xs == [x];
    } else if !Leq(key(x), key(xs[0])) {
      LeqReflexive(key(x));
      InsertIsStable(x, xs[1..], key, k);
      WithKeyOfCons(xs[0], Insert(x, xs[1..], key), key, k);
      var mine, first := if key(x) == k then [x] else [], if key(xs[0]) == k then [xs[0]] else [];
      var rest := WithKey(xs[1..], key, k);
      EmptyCommutes(first, mine, rest);
    }
  }

  /** Elements with equal keys keep their order. */
  lemma {:induction false} SortByIsStable<T>(xs: seq<T>, key: T -> string, k: string)
    ensures WithKey(SortBy(xs, key), key, k) == WithKey(xs, key, k)
  {
    if xs == [] {
    } else {
      SortByIsStable(xs[1..], key, k);
      InsertIsStable(xs[0], SortBy(xs[1..], key), key, k);
    }
  }

  /** The key tells the elements of `xs` apart. */
  ghost predicate KeyIdentifies<T>(xs: seq<T>, key: T -> string) {
    forall x, y :: x in xs && y in xs && key(x) == key(y) ==> x == y
  }

  lemma SortedHeadsAgree<T>(a: seq<T>, b: seq<T>, key: T -> string)
    requires a != [] && b != [] && a[0] in b && b[0] in a
    requires IsSorted(a, key) && IsSorted(b, key) && KeyIdentifies(a, key)
    ensures a[0] == b[0]
  {
    LeqReflexive(key(a[0]));
    LeqReflexive(key(b[0]));
    var i :| 0 <= i < |a| && a[i] == b[0];
    var j :| 0 <= j < |b| && b[j] == a[0];
    assert Leq(key(a[0]), key(a[i])) && Leq(key(b[0]), key(b[j]));
    LeqTotal(key(a[0]), key(b[0]));
  }

  lemma TailsAgree<T>(a: seq<T>, b: seq<T>)
    requires a != [] && b != [] && a[0] == b[0] && multiset(a) == multiset(b)
    ensures multiset(a[1..]) == multiset(b[1..])
  {
    assert a == [a[0]] + a[1..] && b == [b[0]] + b[1..];
    assert multiset(a[1..]) == multiset(a) - multiset{a[0]};
    assert multiset(b[1..]) == multiset(b) - multiset{b[0]};
  }

  lemma {:induction false} SortedIsUnique<T>(a: seq<T>, b: seq<T>, key: T -> string)
    requires multiset(a) == multiset(b)
    requires IsSorted(a, key) && IsSorted(b, key) && KeyIdentifies(a, key)
    ensures a == b
  {
    assert |a| == |multiset(a)| == |multiset(b)| == |b|;
    if a == [] {
    } else {
      assert a[0] in multiset(b) && b[0] in multiset(a);
      SortedHeadsAgree(a, b, key);
      TailsAgree(a, b);
      SortedIsUnique(a[1..], b[1..], key);
    }
  }

  /** Sorting forgets the order of its input as soon as the key tells elements apart. */
  lemma SortForgetsOrder<T>(xs: seq<T>, ys: seq<T>, key: T -> string)
    requires multiset(xs) == multiset(ys) && KeyIdentifies(xs, key)
    ensures SortBy(xs, key) == SortBy(ys, key)
  {
    SortBySorts(xs, key);
    SortBySorts(ys, key);
    var a := SortBy(xs, key);
    forall x | x in a ensures x in xs { assert x in multiset(a); }
    SortedIsUnique(a, SortBy(ys, key), key);
  }

  // -------------------------------------------------------------- plain text

  function Itself(s: string): string { s }

  /** `sorted(names)`. */
  function Sorted(xs: seq<string>): (r: seq<string>)
    ensures multiset(r) == multiset(xs)
    ensures IsSorted(r, Itself)
  {
    SortBySorts(xs, Itself);
    SortBy(xs, Itself)
  }

  lemma SortedForgetsOrder(xs: seq<string>, ys: seq<string>)
    requires multiset(xs) == multiset(ys)
    ensures Sorted(xs) == Sorted(ys)
  {
    SortForgetsOrder(xs, ys, Itself);
  }

  /** Text that is already sorted is what `sorted` returns. */
  lemma SortedIsFixed(xs: seq<string>)
    requires IsSorted(xs, Itself)
    ensures Sorted(xs) == xs
  {
    SortedIsUnique(xs, Sorted(xs), Itself);
  }

  // ------------------------------------------------------------- duplicates

  predicate NoDuplicates<T(==)>(xs: seq<T>) {
    forall i, j :: 0 <= i < j < |xs| ==> xs[i] != xs[j]
  }

  lemma {:induction false} NoDuplicatesCounts<T>(xs: seq<T>, x: T)
    requires NoDuplicates(xs)
    ensures multiset(xs)[x] <= 1
  {
    if xs == [] {
    } else {
      assert xs[0] !in xs[1..];
      NoDuplicatesCounts(xs[1..], x);
      assert xs == [xs[0]] + xs[1..];
    }
  }

  lemma CountsNoDuplicates<T>(xs: seq<T>)
    requires forall x :: x in xs ==> multiset(xs)[x] <= 1
    ensures NoDuplicates(xs)
  {
    forall i, j | 0 <= i < j < |xs| ensures xs[i] != xs[j] {
      var front, back := xs[..i + 1], xs[i + 1..];
      assert xs == front + back && xs[i] == front[i];
      assert multiset(xs)[xs[i]] == multiset(front)[xs[i]] + multiset(back)[xs[i]] && xs[i] in xs;
      assert xs[i] in multiset(front) && xs[i] !in multiset(back);
      assert xs[j] == back[j - i - 1];
    }
  }

  /** Sorting neither adds, drops nor repeats an element. */
  lemma SortByKeepsElements<T>(xs: seq<T>, key: T -> string)
    ensures forall x :: x in SortBy(xs, key) <==> x in xs
    ensures NoDuplicates(xs) ==> NoDuplicates(SortBy(xs, key))
  {
    var sorted := SortBy(xs, key);
    SortBySorts(xs, key);
    assert forall x :: x in sorted <==> x in multiset(sorted);
    if NoDuplicates(xs) {
      forall x | x in sorted ensures multiset(sorted)[x] <= 1 {
        NoDuplicatesCounts(xs, x);
      }
      CountsNoDuplicates(sorted);
    }
  }

  // ---------------------------------------------------------- input order

  lemma Extracted<T>(xs: seq<T>, x: T) returns (rest: seq<T>)
    requires x in xs
    ensures multiset([x] + rest) == multiset(xs)
  {
    var i :| 0 <= i < |xs| && xs[i] == x;
    rest := xs[..i] + xs[i + 1..];
    assert xs == xs[..i] + [x] + xs[i + 1..];
  }

  /** A stable sort gives the same result for every order of its input exactly when no two elements share a key. */
  lemma OrderMattersIffKeysCollide<T(!new)>(xs: seq<T>, key: T -> string)
    ensures (forall ys :: multiset(ys) == multiset(xs) ==> SortBy(ys, key) == SortBy(xs, key))
       <==> KeyIdentifies(xs, key)
  {
    if KeyIdentifies(xs, key) {
      forall ys | multiset(ys) == multiset(xs) ensures SortBy(ys, key) == SortBy(xs, key) {
        SortForgetsOrder(xs, ys, key);
      }
    } else {
      var x, y :| x in xs && y in xs && key(x) == key(y) && x != y;
      var restX := Extracted(xs, x);
      var restY := Extracted(xs, y);
      SortByIsStable([x] + restX, key, key(x));
      SortByIsStable([y] + restY, key, key(x));
      assert WithKey([x] + restX, key, key(x))[0] == x;
      assert WithKey([y] + restY, key, key(x))[0] == y;
    }
  }

  function Map<T>(f: T -> string, xs: seq<T>): (ys: seq<string>)
    ensures |ys| == |xs|
    ensures forall i :: 0 <= i < |xs| ==> ys[i] == f(xs[i])
  {
    if xs == [] then [] else [f(xs[0])] + Map(f, xs[1..])
  }

  lemma {:induction false} MapOfInsert<T>(f: T -> string, x: T, xs: seq<T>, key: T -> string)
    ensures multiset(Map(f, Insert(x, xs, key))) == multiset(Map(f, xs)) + multiset{f(x)}
  {
    if xs == [] || Leq(key(x), key(xs[0])) {
    } else {
      MapOfInsert(f, x, xs[1..], key);
    }
  }

  lemma {:induction false} MapOfSorted<T>(f: T -> string, xs: seq<T>, key: T -> string)
    ensures multiset(Map(f, SortBy(xs, key))) == multiset(Map(f, xs))
  {
    if xs == [] {
    } else {
      MapOfSorted(f, xs[1..], key);
      MapOfInsert(f, xs[0], SortBy(xs[1..], key), key);
    }
  }

  lemma MapForgetsOrder(f: string -> string, a: seq<string>, b: seq<string>)
    requires multiset(a) == multiset(b)
    ensures multiset(Map(f, a)) == multiset(Map(f, b))
  {
    SortedForgetsOrder(a, b);
    MapOfSorted(f, a, Itself);
    MapOfSorted(f, b, Itself);
  }
}
