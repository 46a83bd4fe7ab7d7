/** sort.Slice and sort.Strings: what they promise, and when the promise fixes the result. */
module Sorting {
  import opened Text

  ghost predicate SortedBy<T>(s: seq<T>, key: T -> string) {
    forall i, j :: 0 <= i < j < |s| ==> StrLe(key(s[i]), key(s[j]))
  }

  /** r is one of the results that an unstable sort of s by key may produce. */
  ghost predicate SortedPerm<T>(s: seq<T>, r: seq<T>, key: T -> string) {
    multiset(s) == multiset(r) && SortedBy(r, key)
  }

  /** Elements that share a key are the same element. */
  ghost predicate KeyFunctional<T>(s: seq<T>, key: T -> string) {
    forall x, y :: x in s && y in s && key(x) == key(y) ==> x == y
  }

  /** No two positions share a key. */
  ghost predicate DistinctKeys<T>(s: seq<T>, key: T -> string) {
    forall i, j :: 0 <= i < j < |s| ==> key(s[i]) != key(s[j])
  }

  function Insert<T>(x: T, s: seq<T>, key: T -> string): (r: seq<T>)
    requires SortedBy(s, key)
    ensures SortedBy(r, key)
    ensures multiset(r) == multiset([x]) + multiset(s)
  {
    if s == [] then [x]
    else if StrLe(key(x), key(s[0])) then
      assert SortedBy([x] + s, key) by {
        forall i | 0 <= i < |s| ensures StrLe(key(x), key(s[i])) {
          StrLeTotal(key(s[0]), key(s[0]));
          StrLeTransitive(key(x), key(s[0]), key(s[i]));
        }
      }
      [x] + s
    else
      var r := Insert(x, s[1..], key);
      assert s == [s[0]] + s[1..];
      assert SortedBy([s[0]] + r, key) by {
        StrLeTotal(key(x), key(s[0]));
        forall i | 0 <= i < |r| ensures StrLe(key(s[0]), key(r[i])) {
          assert r[i] in multiset(r);
        }
      }
      [s[0]] + r
  }

  function InsertionSort<T>(s: seq<T>, key: T -> string): (r: seq<T>)
    ensures SortedPerm(s, r, key)
  {
    if s == [] then []
    else
      assert s == [s[0]] + s[1..];
      Insert(s[0], InsertionSort(s[1..], key), key)
  }

  /** The library sort. Callers may rely on its contract only, so equal keys may come out in any order. */
  method SortSlice<T>(a: array<T>, key: T -> string)
    modifies a
    ensures SortedPerm(old(a[..]), a[..], key)
  {
    var r := InsertionSort(a[..], key);
    assert |r| == a.Length by { assert |multiset(r)| == |multiset(a[..])|; }
    forall i | 0 <= i < a.Length { a[i] := r[i]; }
    assert a[..] == r;
  }

  lemma {:induction false} MembersOfPerm<T>(s: seq<T>, r: seq<T>)
    requires multiset(s) == multiset(r)
    ensures |s| == |r|
    ensures forall x :: x in s <==> x in r
  {
    assert |multiset(s)| == |multiset(r)|;
    forall x ensures x in s <==> x in r {
      assert x in s <==> x in multiset(s);
      assert x in r <==> x in multiset(r);
    }
  }

  /** Sorting is deterministic when keys identify elements, even though the sort is unstable. */
  lemma {:induction false} SortUnique<T>(r1: seq<T>, r2: seq<T>, key: T -> string)
    requires multiset(r1) == multiset(r2)
    requires SortedBy(r1, key) && SortedBy(r2, key)
    requires KeyFunctional(r1, key)
    ensures r1 == r2
  {
    MembersOfPerm(r1, r2);
    if r1 != [] {
      var x, y := r1[0], r2[0];
      assert x in r2 && y in r1;
      LeastFirst(r1, y, key);
      LeastFirst(r2, x, key);
      StrLeAntisymmetric(key(x), key(y));
      assert x == y;
      hide StrLe;
      TailPerm(r1, r2);
      SortUnique(r1[1..], r2[1..], key);
    }
  }

  lemma TailPerm<T>(a: seq<T>, b: seq<T>)
    requires a != [] && b != [] && a[0] == b[0] && multiset(a) == multiset(b)
    ensures multiset(a[1..]) == multiset(b[1..])
    ensures a == [a[0]] + a[1..] && b == [b[0]] + b[1..]
  {
    assert a == [a[0]] + a[1..] && b == [b[0]] + b[1..];
    assert multiset(a[1..]) == multiset(a) - multiset{a[0]};
    assert multiset(b[1..]) == multiset(b) - multiset{a[0]};
  }

  lemma LeastFirst<T>(s: seq<T>, x: T, key: T -> string)
    requires SortedBy(s, key) && x in s
    ensures StrLe(key(s[0]), key(x))
  {
    var i :| 0 <= i < |s| && s[i] == x;
    StrLeTotal(key(x), key(x));
  }

  lemma SwapPerm<T>(s: seq<T>, i: nat, j: nat)
    requires i < j < |s|
    ensures multiset(s[i := s[j]][j := s[i]]) == multiset(s)
  {
  }

  /** If two different elements share a key, an unstable sort has two different results. */
  lemma {:induction false} TwoResults<T>(s: seq<T>, x: T, y: T, key: T -> string) returns (r1: seq<T>, r2: seq<T>)
    requires x in s && y in s && x != y && key(x) == key(y)
    ensures SortedPerm(s, r1, key) && SortedPerm(s, r2, key) && r1 != r2
  {
    r1 := InsertionSort(s, key);
    MembersOfPerm(s, r1);
    var i :| 0 <= i < |r1| && r1[i] == x;
    var j :| 0 <= j < |r1| && r1[j] == y;
    var lo, hi := if i < j then i else j, if i < j then j else i;
    r2 := r1[lo := r1[hi]][hi := r1[lo]];
    SwapPerm(r1, lo, hi);
    forall a, b | 0 <= a < b < |r2| ensures StrLe(key(r2[a]), key(r2[b])) {
      assert key(r2[a]) == key(r1[a]) && key(r2[b]) == key(r1[b]);
    }
    assert r2[lo] != r1[lo];
  }

  /** The exact condition under which an unstable sort has one possible result. */
  lemma SortUniqueIff<T>(s: seq<T>, key: T -> string)
    ensures (forall r1, r2 :: SortedPerm(s, r1, key) && SortedPerm(s, r2, key) ==> r1 == r2) <==> KeyFunctional(s, key)
  {
    if KeyFunctional(s, key) {
      forall r1, r2 | SortedPerm(s, r1, key) && SortedPerm(s, r2, key) ensures r1 == r2 {
        MembersOfPerm(s, r1);
        SortUnique(r1, r2, key);
      }
    } else {
      var x, y :| x in s && y in s && key(x) == key(y) && x != y;
      var r1, r2 := TwoResults(s, x, y, key);
    }
  }

  lemma DistinctIsFunctional<T>(s: seq<T>, key: T -> string)
    requires DistinctKeys(s, key)
    ensures KeyFunctional(s, key)
  {
  }

  // ---- sets of strings as sorted lists ----

  predicate StrictlySorted(s: seq<string>) {
    forall i, j :: 0 <= i < j < |s| ==> StrLe(s[i], s[j]) && s[i] != s[j]
  }

  ghost function Elements<T>(s: seq<T>): set<T> {
    set x | x in s
  }

  /** A strictly sorted list is determined by its set of elements. */
  lemma {:induction false} StrictlySortedUnique(a: seq<string>, b: seq<string>)
    requires StrictlySorted(a) && StrictlySorted(b)
    ensures a == b <==> Elements(a) == Elements(b)
  {
    if Elements(a) == Elements(b) {
      NoDupMultiset(a);
      NoDupMultiset(b);
      SortUnique(a, b, x => x);
    }
  }

  lemma {:induction false} NoDupMultiset(a: seq<string>)
    requires StrictlySorted(a)
    ensures multiset(a) == multiset(Elements(a))
  {
    if a != [] {
      var b, z := a[..|a| - 1], a[|a| - 1];
      NoDupMultiset(b);
      assert multiset(a) == multiset(b) + multiset{z} by { assert a == b + [z]; }
      ElementsSnoc(b, z);
      assert a == b + [z];
      assert z !in Elements(b);
      assert multiset(Elements(b) + {z}) == multiset(Elements(b)) + multiset{z};
    }
  }

  lemma ElementsSnoc<T>(b: seq<T>, z: T)
    ensures Elements(b + [z]) == Elements(b) + {z}
  {
  }

  lemma ElementsCons<T>(z: T, b: seq<T>)
    ensures Elements([z] + b) == {z} + Elements(b)
  {
  }

  ghost predicate Least(m: string, s: set<string>) {
    m in s && forall k :: k in s ==> StrLe(m, k)
  }

  /** The elements of a finite set of strings in increasing order. */
  function SortedKeys(s: set<string>): (r: seq<string>)
    ensures StrictlySorted(r)
    ensures Elements(r) == s
    decreases |s|
  {
    if s == {} then []
    else
      LeastExists(s);
      LeastUnique(s);
      var m :| m in s && forall k :: k in s ==> StrLe(m, k);
      var rest := SortedKeys(s - {m});
      ConsStrictlySorted(m, rest);
      ElementsCons(m, rest);
      [m] + rest
  }

  lemma ConsStrictlySorted(m: string, rest: seq<string>)
    requires StrictlySorted(rest) && m !in Elements(rest)
    requires forall k :: k in Elements(rest) ==> StrLe(m, k)
    ensures StrictlySorted([m] + rest)
  {
  }

  lemma LeastExists(s: set<string>)
    requires s != {}
    ensures exists m :: m in s && forall k :: k in s ==> StrLe(m, k)
  {
    var m := LeastOf(s);
  }

  lemma {:induction false} LeastOf(s: set<string>) returns (m: string)
    requires s != {}
    ensures Least(m, s)
    decreases |s|
  {
    hide StrLe;
    var x :| x in s;
    StrLeTotal(x, x);
    var t := s - {x};
    assert forall k :: k in s ==> k == x || k in t;
    if t == {} {
      m := x;
    } else {
      m := LeastOf(t);
      StrLeTotal(x, m);
      if StrLe(x, m) {
        forall k | k in t ensures StrLe(x, k) { StrLeTransitive(x, m, k); }
        m := x;
      }
    }
  }

  lemma LeastUnique(s: set<string>)
    ensures forall m, n ::
      m in s && n in s && (forall k :: k in s ==> StrLe(m, k)) && (forall k :: k in s ==> StrLe(n, k)) ==> m == n
  {
    forall m, n | m in s && n in s && (forall k :: k in s ==> StrLe(m, k)) && (forall k :: k in s ==> StrLe(n, k))
      ensures m == n {
      StrLeAntisymmetric(m, n);
    }
  }

  // ---- repetition ----

  ghost predicate NoDuplicates<T>(s: seq<T>) {
    forall i, j :: 0 <= i < j < |s| ==> s[i] != s[j]
  }

  lemma {:induction false} AtMostOnce<T>(s: seq<T>, x: T)
    requires NoDuplicates(s)
    ensures multiset(s)[x] <= 1
  {
    if s != [] {
      var init := s[..|s| - 1];
      AtMostOnce(init, x);
      assert s == init + [s[|s| - 1]];
    }
  }

  /** A permutation of a list without duplicates has none. */
  lemma PermNoDuplicates<T>(s: seq<T>, r: seq<T>)
    requires multiset(s) == multiset(r) && NoDuplicates(s)
    ensures NoDuplicates(r)
  {
    forall i, j | 0 <= i < j < |r| ensures r[i] != r[j] {
      if r[i] == r[j] {
        assert r == r[..i] + [r[i]] + r[i + 1..j] + [r[j]] + r[j + 1..];
        AtMostOnce(s, r[i]);
        assert false;
      }
    }
  }

  lemma PermDistinctKeys<T>(s: seq<T>, r: seq<T>, key: T -> string)
    requires multiset(s) == multiset(r) && DistinctKeys(s, key)
    ensures DistinctKeys(r, key)
  {
    assert NoDuplicates(s);
    PermNoDuplicates(s, r);
    MembersOfPerm(s, r);
    DistinctIsFunctional(s, key);
  }

  /** Sorting a list without duplicates gives a strictly sorted list of the same elements. */
  lemma SortedDistinct(s: seq<string>, r: seq<string>)
    requires SortedPerm(s, r, x => x) && NoDuplicates(s)
    ensures StrictlySorted(r) && Elements(r) == Elements(s)
  {
    MembersOfPerm(s, r);
    PermNoDuplicates(s, r);
  }

  function Mapped<T, U>(f: T -> U, s: seq<T>): (r: seq<U>)
    ensures |r| == |s| && forall i :: 0 <= i < |s| ==> r[i] == f(s[i])
  {
    seq(|s|, i requires 0 <= i < |s| => f(s[i]))
  }

  lemma WithoutOne<T, U>(f: T -> U, s: seq<T>, k: nat)
    requires k < |s|
    ensures multiset(s) == multiset(s[..k] + s[k + 1..]) + multiset{s[k]}
    ensures multiset(Mapped(f, s)) == multiset(Mapped(f, s[..k] + s[k + 1..])) + multiset{f(s[k])}
  {
    assert s == s[..k] + [s[k]] + s[k + 1..];
    var a, b := Mapped(f, s[..k]), Mapped(f, s[k + 1..]);
    assert Mapped(f, s) == a + [f(s[k])] + b;
    assert Mapped(f, s[..k] + s[k + 1..]) == a + b;
  }

  lemma SameRest<T>(whole: multiset<T>, a: multiset<T>, b: multiset<T>, x: T)
    requires whole == a + multiset{x} && whole == b + multiset{x}
    ensures a == b
  {
    assert a == whole - multiset{x} && b == whole - multiset{x};
  }

  /** Mapping keeps permutations. */
  lemma {:induction false} MappedPerm<T, U>(f: T -> U, s: seq<T>, r: seq<T>)
    requires multiset(s) == multiset(r)
    ensures multiset(Mapped(f, s)) == multiset(Mapped(f, r))
    decreases |s|
  {
    hide Mapped;
    MembersOfPerm(s, r);
    if s == [] {
      assert s == r;
    } else {
      assert s[0] in s;
      var k :| 0 <= k < |r| && r[k] == s[0];
      WithoutOne(f, s, 0);
      WithoutOne(f, r, k);
      var s', r' := s[..0] + s[1..], r[..k] + r[k + 1..];
      SameRest(multiset(s), multiset(s'), multiset(r'), s[0]);
      MappedPerm(f, s', r');
    }
  }

  lemma DistinctSnoc<T>(s: seq<T>, x: T, key: T -> string)
    ensures DistinctKeys(s + [x], key) <==> DistinctKeys(s, key) && key(x) !in Elements(Mapped(key, s))
    ensures Elements(Mapped(key, s + [x])) == Elements(Mapped(key, s)) + {key(x)}
  {
    var keys := Mapped(key, s);
    assert Mapped(key, s + [x]) == keys + [key(x)];
    ElementsSnoc(keys, key(x));
    assert (s + [x])[|s|] == x && forall i :: 0 <= i < |s| ==> (s + [x])[i] == s[i];
    assert forall i :: 0 <= i < |s| ==> key(s[i]) in Elements(keys) by {
      assert forall i :: 0 <= i < |s| ==> keys[i] == key(s[i]);
    }
    if DistinctKeys(s + [x], key) {
      DistinctPrefix(s + [x], |s|, key);
      assert (s + [x])[..|s|] == s;
      forall i | 0 <= i < |keys| ensures keys[i] != key(x) {
        assert key((s + [x])[i]) != key((s + [x])[|s|]);
      }
    }
  }

  lemma DistinctPrefix<T>(s: seq<T>, k: nat, key: T -> string)
    requires k <= |s|
    ensures DistinctKeys(s, key) ==> DistinctKeys(s[..k], key)
  {
  }
}
