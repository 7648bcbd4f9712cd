/** Sequences taken apart at one position. */
module Sequences {

  ghost predicate Distinct<T>(s: seq<T>) {
    forall i, j :: 0 <= i < j < |s| ==> s[i] != s[j]
  }

  function Range<T>(s: seq<T>): set<T> {
    set x | x in s
  }

  lemma DistinctConcat<T>(a: seq<T>, b: seq<T>)
    ensures Distinct(a + b) <==> Distinct(a) && Distinct(b) && Range(a) !! Range(b)
  {
    if Distinct(a + b) {
      forall i, j | 0 <= i < j < |a| ensures a[i] != a[j] {
        assert (a + b)[i] != (a + b)[j];
      }
      forall i, j | 0 <= i < j < |b| ensures b[i] != b[j] {
        assert (a + b)[|a| + i] != (a + b)[|a| + j];
      }
      forall i, j | 0 <= i < |a| && 0 <= j < |b| ensures a[i] != b[j] {
        assert (a + b)[i] != (a + b)[|a| + j];
      }
    }
    if Distinct(a) && Distinct(b) && Range(a) !! Range(b) {
      forall i, j | 0 <= i < j < |a + b| ensures (a + b)[i] != (a + b)[j] {
        if i < |a| <= j {
          assert a[i] in Range(a) && b[j - |a|] in Range(b);
        }
      }
    }
  }

  function Without<T>(s: seq<T>, k: nat): seq<T>
    requires k < |s|
  {
    s[..k] + s[k + 1..]
  }

  lemma WithoutMultiset<T>(s: seq<T>, k: nat)
    requires k < |s|
    ensures multiset(Without(s, k)) == multiset(s) - multiset{s[k]}
  {
    assert s == s[..k] + [s[k]] + s[k + 1..];
  }

  /** A rearrangement of `a` holds its first element somewhere, and rearranges the rest around it. */
  lemma FindFirst<T>(a: seq<T>, b: seq<T>) returns (k: nat)
    requires a != [] && multiset(a) == multiset(b)
    ensures k < |b| && b[k] == a[0] && multiset(Without(b, k)) == multiset(a[1..])
  {
    assert a[0] in multiset(b);
    k :| 0 <= k < |b| && b[k] == a[0];
    WithoutMultiset(a, 0);
    WithoutMultiset(b, k);
    assert Without(a, 0) == a[1..];
  }

  /** The elements that satisfy `keep`, in their order. */
  function Filter<T>(s: seq<T>, keep: T -> bool): seq<T> {
    if s == [] then []
    else if keep(s[0]) then [s[0]] + Filter(s[1..], keep)
    else Filter(s[1..], keep)
  }

  /** Taking out an element that is not kept, or the first one kept. */
  lemma {:induction false} FilterWithout<T>(s: seq<T>, k: nat, keep: T -> bool)
    requires k < |s|
    ensures !keep(s[k]) ==> Filter(Without(s, k), keep) == Filter(s, keep)
    ensures keep(s[k]) && (forall j :: 0 <= j < k ==> !keep(s[j])) ==> Filter(s, keep) == [s[k]] + Filter(Without(s, k), keep)
    decreases k
  {
    if k == 0 {
      assert Without(s, 0) == s[1..];
    } else {
      FilterWithout(s[1..], k - 1, keep);
      assert Without(s, k)[0] == s[0] && Without(s, k)[1..] == Without(s[1..], k - 1);
    }
  }

  lemma {:induction false} FirstKept<T>(s: seq<T>, keep: T -> bool) returns (k: nat)
    requires Filter(s, keep) != []
    ensures k < |s| && keep(s[k]) && s[k] == Filter(s, keep)[0]
    ensures forall j :: 0 <= j < k ==> !keep(s[j])
  {
    if keep(s[0]) {
      k := 0;
    } else {
      k := FirstKept(s[1..], keep);
      k := k + 1;
    }
  }

  lemma {:induction false} FilterSnoc<T>(s: seq<T>, x: T, keep: T -> bool)
    ensures Filter(s + [x], keep) == Filter(s, keep) + if keep(x) then [x] else []
  {
    if s == [] {
      assert s + [x] == [x];
    } else {
      assert (s + [x])[1..] == s[1..] + [x];
      FilterSnoc(s[1..], x, keep);
    }
  }

  lemma {:induction false} FilterConcat<T>(a: seq<T>, b: seq<T>, keep: T -> bool)
    ensures Filter(a + b, keep) == Filter(a, keep) + Filter(b, keep)
  {
    if a == [] {
      assert a + b == b;
    } else {
      assert (a + b)[1..] == a[1..] + b;
      FilterConcat(a[1..], b, keep);
    }
  }

  lemma {:induction false} FilterAll<T>(s: seq<T>, keep: T -> bool, all: bool)
    requires forall x :: x in s ==> keep(x) == all
    ensures Filter(s, keep) == if all then s else []
  {
    if s != [] {
      FilterAll(s[1..], keep, all);
    }
  }

  function Mapped<T, U>(s: seq<T>, f: T -> U): seq<U> {
    seq(|s|, i requires 0 <= i < |s| => f(s[i]))
  }

  /** `at` lists, from left to right, exactly the places of elements that satisfy `keep`. */
  ghost predicate Places<T>(at: seq<nat>, s: seq<T>, keep: T -> bool) {
    && (forall j, k :: 0 <= j < k < |at| ==> at[j] < at[k])
    && (forall k :: 0 <= k < |at| ==> at[k] < |s| && keep(s[at[k]]))
    && (forall i :: 0 <= i < |s| && keep(s[i]) ==> i in at)
  }

  lemma PlacesSnoc<T>(at: seq<nat>, s: seq<T>, x: T, keep: T -> bool)
    requires Places(at, s, keep)
    ensures if keep(x) then Places(at + [|s|], s + [x], keep) else Places(at, s + [x], keep)
  {
    var all, more := s + [x], at + [|s|];
    assert all[|s|] == x && forall i :: 0 <= i < |s| ==> all[i] == s[i];
    if keep(x) {
      forall i | 0 <= i < |all| && keep(all[i]) ensures i in more {
        assert i == |s| || keep(s[i]);
      }
    } else {
      forall i | 0 <= i < |all| && keep(all[i]) ensures i in at {
        assert keep(s[i]);
      }
    }
  }

  function AtPlaces<T>(at: seq<nat>, s: seq<T>): seq<T>
    requires forall k :: 0 <= k < |at| ==> at[k] < |s|
  {
    seq(|at|, k requires 0 <= k < |at| => s[at[k]])
  }

  lemma AtPlacesSnoc<T>(at: seq<nat>, s: seq<T>, x: T)
    requires forall k :: 0 <= k < |at| ==> at[k] < |s|
    ensures AtPlaces(at, s + [x]) == AtPlaces(at, s)
    ensures AtPlaces(at + [|s|], s + [x]) == AtPlaces(at, s) + [x]
  {
  }

  /** Every element that satisfies `keep` is kept, once for each place it stands at, and in that order. */
  lemma {:induction false} FilterMeaning<T>(s: seq<T>, keep: T -> bool) returns (at: seq<nat>)
    ensures Places(at, s, keep) && Filter(s, keep) == AtPlaces(at, s)
  {
    if s == [] {
      at := [];
    } else {
      var init, last := s[..|s| - 1], s[|s| - 1];
      assert s == init + [last];
      at := FilterMeaning(init, keep);
      PlacesSnoc(at, init, last, keep);
      AtPlacesSnoc(at, init, last);
      FilterSnoc(init, last, keep);
      at := if keep(last) then at + [|init|] else at;
    }
  }

  function Flat<T>(parts: seq<seq<T>>): seq<T> {
    if parts == [] then [] else parts[0] + Flat(parts[1..])
  }

  lemma FlatOne<T>(part: seq<T>)
    ensures Flat([part]) == part
  {
    assert Flat([part]) == part + Flat([part][1..]);
  }

  lemma {:induction false} FlatConcat<T>(a: seq<seq<T>>, b: seq<seq<T>>)
    ensures Flat(a + b) == Flat(a) + Flat(b)
  {
    if a == [] {
      assert a + b == b;
    } else {
      assert (a + b)[0] == a[0] && (a + b)[1..] == a[1..] + b;
      FlatConcat(a[1..], b);
    }
  }

  // ------------------------------------------------------------- classes by a key

  function Has<T, K(==)>(key: T -> K, k: K): T -> bool {
    x => key(x) == k
  }

  /** The same elements for every key, in the same order. */
  ghost predicate SameByKey<T, K(!new)>(a: seq<T>, b: seq<T>, key: T -> K) {
    forall k :: Filter(a, Has(key, k)) == Filter(b, Has(key, k))
  }

  lemma EmptyByKey<T, K(!new)>(b: seq<T>, key: T -> K)
    requires SameByKey([], b, key)
    ensures b == []
  {
    if b != [] {
      HeadIsKept(b, key);
    }
  }

  lemma HeadIsKept<T, K>(b: seq<T>, key: T -> K)
    requires b != []
    ensures Filter(b, Has(key, key(b[0]))) != []
  {
  }

  /** Where `a`'s first element stands in `b`, and that the rest still agrees. */
  lemma FirstInOther<T, K(!new)>(a: seq<T>, b: seq<T>, key: T -> K) returns (i: nat)
    requires a != [] && SameByKey(a, b, key)
    ensures i < |b| && b[i] == a[0] && forall j :: 0 <= j < i ==> key(b[j]) != key(b[i])
    ensures SameByKey(a[1..], Without(b, i), key)
  {
    var mine := key(a[0]);
    assert Filter(a, Has(key, mine)) == Filter(b, Has(key, mine));
    i := FirstKept(b, Has(key, mine));
    assert forall j :: 0 <= j < i ==> !Has(key, mine)(b[j]);
    forall k ensures Filter(a[1..], Has(key, k)) == Filter(Without(b, i), Has(key, k)) {
      FilterWithout(b, i, Has(key, k));
      assert Filter(a, Has(key, k)) == Filter(b, Has(key, k));
      if k == mine {
        var x, y := Filter(a[1..], Has(key, k)), Filter(Without(b, i), Has(key, k));
        assert ([a[0]] + x)[1..] == x && ([b[i]] + y)[1..] == y;
      }
    }
  }
}
