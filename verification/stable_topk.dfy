/**
 Stable top-k selection by a real-valued score, as both ranking stages and the
 popularity report perform it: Python's `sort(key=..., reverse=True)` and
 `sorted(..., reverse=True)` order by non-increasing key and keep equal keys in
 their input order; the selection then keeps the head slice `[:n]`.
 */
module StableTopK {
  import opened Seqs

  /** `t` is ordered by non-increasing key. */
  predicate SortedDesc<T>(t: seq<T>, key: T -> real) {
    forall i, j :: 0 <= i < j < |t| ==> key(t[i]) >= key(t[j])
  }

  /** The elements of `s` whose key is exactly `k`, in their order in `s`. */
  function Tied<T>(s: seq<T>, key: T -> real, k: real): seq<T> {
    if |s| == 0 then []
    else (if key(s[0]) == k then [s[0]] else []) + Tied(s[1..], key, k)
  }

  /** The declarative meaning of a stable descending sort of `s`: `t` is
      ordered by non-increasing key, and for every key value the elements that
      carry it appear in `t` exactly as they appear in `s`. */
  ghost predicate IsStableSortDesc<T>(s: seq<T>, t: seq<T>, key: T -> real) {
    && SortedDesc(t, key)
    && forall k :: Tied(t, key, k) == Tied(s, key, k)
  }

  /** Places `x` after every element of the sorted `t` whose key is at least
      `key(x)`: a later element never overtakes an earlier one with an equal key. */
  function Insert<T(==,!new)>(t: seq<T>, x: T, key: T -> real): (r: seq<T>)
    requires SortedDesc(t, key)
    ensures SortedDesc(r, key)
    ensures multiset(r) == multiset(t) + multiset{x}
    ensures |r| == |t| + 1
    ensures forall y :: y in r <==> y in t || y == x
  {
    if |t| == 0 then [x]
    else if key(t[0]) >= key(x) then
      var rest := Insert(t[1..], x, key);
      assert t == [t[0]] + t[1..];
      HeadBoundsInsert(t, x, key, rest);
      ConsSorted(t[0], rest, key);
      [t[0]] + rest
    else
      HeadBoundsInsert(t, x, key, t);
      ConsSorted(x, t, key);
      [x] + t
  }

  /** Prepending an element whose key bounds every key of a sorted sequence
      keeps it sorted. */
  lemma ConsSorted<T>(h: T, rest: seq<T>, key: T -> real)
    requires SortedDesc(rest, key)
    requires forall y :: y in rest ==> key(h) >= key(y)
    ensures SortedDesc([h] + rest, key)
  {
    forall i, j | 0 <= i < j < |[h] + rest|
      ensures key(([h] + rest)[i]) >= key(([h] + rest)[j])
    {
      assert ([h] + rest)[j] == rest[j - 1];
      if i > 0 {
        assert ([h] + rest)[i] == rest[i - 1];
      } else {
        assert rest[j - 1] in rest;
      }
    }
  }

  /** In a non-empty sorted `t`, the first key bounds every key of `t` and of
      `x` when it is at least `key(x)`; otherwise `key(x)` bounds them all. */
  lemma HeadBoundsInsert<T>(t: seq<T>, x: T, key: T -> real, rest: seq<T>)
    requires |t| > 0 && SortedDesc(t, key)
    requires key(t[0]) >= key(x) ==> forall y :: y in rest ==> y in t[1..] || y == x
    requires key(t[0]) < key(x) ==> rest == t
    ensures key(t[0]) >= key(x) ==> forall y :: y in rest ==> key(t[0]) >= key(y)
    ensures key(t[0]) < key(x) ==> forall y :: y in rest ==> key(x) >= key(y)
  {
    forall y | y in rest
      ensures key(t[0]) >= key(x) ==> key(t[0]) >= key(y)
      ensures key(t[0]) < key(x) ==> key(x) >= key(y)
    {
      if y in t {
        var m :| 0 <= m < |t| && t[m] == y;
        assert m == 0 || key(t[0]) >= key(t[m]);
      } else {
        assert forall z :: z in t[1..] ==> z in t;
      }
    }
  }

  /** Stable sort by non-increasing key (insertion sort, last element last). */
  function SortDesc<T(==,!new)>(s: seq<T>, key: T -> real): (r: seq<T>)
    ensures SortedDesc(r, key)
    ensures multiset(r) == multiset(s)
    ensures |r| == |s|
    ensures forall y :: y in r <==> y in s
  {
    if |s| == 0 then []
    else
      assert s == s[..|s| - 1] + [s[|s| - 1]];
      Insert(SortDesc(s[..|s| - 1], key), s[|s| - 1], key)
  }

  /** The first `n` elements (Python's `[:n]`) of the stable descending sort of
      `s`: the top-k selection of both cascade stages. */
  function TopK<T(==,!new)>(s: seq<T>, key: T -> real, n: int): (r: seq<T>)
    ensures SortedDesc(r, key)
    ensures multiset(r) <= multiset(s)
    ensures forall y :: y in r ==> y in s
    ensures 0 <= n ==> |r| == Min(n, |s|)
    ensures n < 0 ==> |r| == Max(0, |s| + n)
    ensures forall x, i :: x in s && x !in r && 0 <= i < |r| ==> key(x) <= key(r[i])
    ensures Distinct(s) ==> Distinct(r)
  {
    var sorted := SortDesc(s, key);
    var r := Head(sorted, n);
    DroppedNotHigher(sorted, r, key);
    PrefixOfSorted(sorted, r, key);
    SubMultisetDistinct(r, s);
    r
  }

  /** A prefix of a sorted sequence is sorted and takes no more copies of any
      element than the whole. */
  lemma PrefixOfSorted<T>(sorted: seq<T>, r: seq<T>, key: T -> real)
    requires SortedDesc(sorted, key)
    requires r <= sorted
    ensures SortedDesc(r, key)
    ensures multiset(r) <= multiset(sorted)
    ensures forall y :: y in r ==> y in sorted
  {
    assert sorted == r + sorted[|r|..];
    assert multiset(sorted) == multiset(r) + multiset(sorted[|r|..]);
    forall i, j | 0 <= i < j < |r|
      ensures key(r[i]) >= key(r[j])
    {
      assert r[i] == sorted[i] && r[j] == sorted[j];
    }
  }

  /** In a sorted sequence, nothing outside a prefix outranks the prefix. */
  lemma DroppedNotHigher<T>(sorted: seq<T>, r: seq<T>, key: T -> real)
    requires SortedDesc(sorted, key)
    requires r <= sorted
    ensures forall x, i :: x in sorted && x !in r && 0 <= i < |r| ==> key(x) <= key(r[i])
  {
    forall x, i | x in sorted && x !in r && 0 <= i < |r|
      ensures key(x) <= key(r[i])
    {
      var j :| 0 <= j < |sorted| && sorted[j] == x;
      assert r[i] == sorted[i];
    }
  }

  /** `Tied` distributes over concatenation. */
  lemma {:induction false} TiedConcat<T>(a: seq<T>, b: seq<T>, key: T -> real, k: real)
    ensures Tied(a + b, key, k) == Tied(a, key, k) + Tied(b, key, k)
  {
    if |a| == 0 {
      assert a + b == b;
    } else {
      var head: seq<T> := if key(a[0]) == k then [a[0]] else [];
      assert a + b == [a[0]] + (a[1..] + b);
      TiedConcat(a[1..], b, key, k);
      TiedCons(a[0], a[1..] + b, key, k);
      TiedCons(a[0], a[1..], key, k);
      assert a == [a[0]] + a[1..];
      AppendAssoc(head, Tied(a[1..], key, k), Tied(b, key, k));
    }
  }

  /** `Tied` keeps exactly the elements carrying key `k`. */
  lemma {:induction false} TiedMembers<T(!new)>(s: seq<T>, key: T -> real, k: real)
    ensures forall y :: y in Tied(s, key, k) <==> y in s && key(y) == k
  {
    if |s| > 0 {
      TiedMembers(s[1..], key, k);
      assert s == [s[0]] + s[1..];
    }
  }

  /** A sequence in which no element carries key `k` has an empty tie class for `k`. */
  lemma {:induction false} TiedAbsent<T>(t: seq<T>, key: T -> real, k: real)
    requires forall i :: 0 <= i < |t| ==> key(t[i]) != k
    ensures Tied(t, key, k) == []
  {
    if |t| > 0 {
      TiedAbsent(t[1..], key, k);
    }
  }

  /** Inserting `x` appends it to its own tie class and leaves the others alone. */
  lemma {:induction false} InsertTied<T(!new)>(t: seq<T>, x: T, key: T -> real, k: real)
    requires SortedDesc(t, key)
    ensures Tied(Insert(t, x, key), key, k) == Tied(t, key, k) + (if key(x) == k then [x] else [])
  {
    if |t| == 0 {
      assert Insert(t, x, key) == [x];
    } else if key(t[0]) >= key(x) {
      InsertTied(t[1..], x, key, k);
      InsertTiedBehind(t, x, key, k);
    } else {
      assert Insert(t, x, key) == [x] + t;
      if key(x) == k {
        TiedAbsent(t, key, k);
      }
    }
  }

  /** The step of `InsertTied` where `x` goes behind the head of `t`. */
  lemma InsertTiedBehind<T(!new)>(t: seq<T>, x: T, key: T -> real, k: real)
    requires SortedDesc(t, key)
    requires |t| > 0 && key(t[0]) >= key(x)
    requires Tied(Insert(t[1..], x, key), key, k) == Tied(t[1..], key, k) + (if key(x) == k then [x] else [])
    ensures Tied(Insert(t, x, key), key, k) == Tied(t, key, k) + (if key(x) == k then [x] else [])
  {
    var rest := Insert(t[1..], x, key);
    assert Insert(t, x, key) == [t[0]] + rest;
    TiedBehindHead(t, rest, x, key, k);
  }

  /** Putting the head of `t` in front of a sequence whose tie class for `k`
      is that of `t[1..]` followed by `x` (when `x` carries `k`) gives the tie
      class of `t` followed by `x`. */
  lemma TiedBehindHead<T>(t: seq<T>, rest: seq<T>, x: T, key: T -> real, k: real)
    requires |t| > 0
    requires Tied(rest, key, k) == Tied(t[1..], key, k) + (if key(x) == k then [x] else [])
    ensures Tied([t[0]] + rest, key, k) == Tied(t, key, k) + (if key(x) == k then [x] else [])
  {
    var head: seq<T> := if key(t[0]) == k then [t[0]] else [];
    var own: seq<T> := if key(x) == k then [x] else [];
    calc {
      Tied([t[0]] + rest, key, k);
      { TiedCons(t[0], rest, key, k); }
      head + Tied(rest, key, k);
      head + (Tied(t[1..], key, k) + own);
      { AppendAssoc(head, Tied(t[1..], key, k), own); }
      (head + Tied(t[1..], key, k)) + own;
      { TiedCons(t[0], t[1..], key, k); }
      Tied([t[0]] + t[1..], key, k) + own;
      { assert t == [t[0]] + t[1..]; }
      Tied(t, key, k) + own;
    }
  }

  /** The tie class of `[h] + rest`: `h` if it carries the key, then the tie
      class of `rest`. */
  lemma TiedCons<T>(h: T, rest: seq<T>, key: T -> real, k: real)
    ensures Tied([h] + rest, key, k) == (if key(h) == k then [h] else []) + Tied(rest, key, k)
  {
    assert ([h] + rest)[0] == h && ([h] + rest)[1..] == rest;
  }

  /** Sorting keeps every tie class in input order: the sort is stable. */
  lemma {:induction false} SortDescStable<T(!new)>(s: seq<T>, key: T -> real, k: real)
    ensures Tied(SortDesc(s, key), key, k) == Tied(s, key, k)
  {
    if |s| > 0 {
      var init := s[..|s| - 1];
      var last := s[|s| - 1];
      assert s == init + [last];
      SortDescStable(init, key, k);
      InsertTied(SortDesc(init, key), last, key, k);
      TiedConcat(init, [last], key, k);
      assert Tied([last], key, k) == (if key(last) == k then [last] else []) by {
        assert [last][1..] == [];
      }
    }
  }

  /** `SortDesc` is a stable descending sort. */
  lemma SortDescIsStableSort<T(!new)>(s: seq<T>, key: T -> real)
    ensures IsStableSortDesc(s, SortDesc(s, key), key)
  {
    forall k
      ensures Tied(SortDesc(s, key), key, k) == Tied(s, key, k)
    {
      SortDescStable(s, key, k);
    }
  }

  /** Two sorted sequences with the same tie classes are equal. */
  lemma {:induction false} SortedTiedUnique<T(!new)>(t: seq<T>, u: seq<T>, key: T -> real)
    requires SortedDesc(t, key) && SortedDesc(u, key)
    requires forall k :: Tied(t, key, k) == Tied(u, key, k)
    ensures t == u
    decreases |t| + |u|
  {
    if |t| > 0 {
      assert Tied(t, key, key(t[0])) == [t[0]] + Tied(t[1..], key, key(t[0]));
      assert Tied(u, key, key(t[0])) != [];
    }
    if |u| > 0 {
      assert Tied(u, key, key(u[0])) == [u[0]] + Tied(u[1..], key, key(u[0]));
      assert Tied(t, key, key(u[0])) != [];
    }
    if |t| > 0 {
      SortedTiedSameHead(t, u, key);
      SortedTiedSameTail(t, u, key);
      SortedTiedUnique(t[1..], u[1..], key);
      assert t == [t[0]] + t[1..];
      assert u == [u[0]] + u[1..];
    }
  }

  /** Sorted sequences with the same tie classes start with the same element:
      the head of each carries the largest key, so both heads open that class. */
  lemma SortedTiedSameHead<T(!new)>(t: seq<T>, u: seq<T>, key: T -> real)
    requires |t| > 0 && |u| > 0
    requires SortedDesc(t, key) && SortedDesc(u, key)
    requires forall k :: Tied(t, key, k) == Tied(u, key, k)
    ensures t[0] == u[0]
  {
    var kt := key(t[0]);
    var ku := key(u[0]);
    TiedMembers(t, key, ku);
    TiedMembers(u, key, kt);
    assert u[0] in Tied(u, key, ku);
    assert t[0] in Tied(t, key, kt);
    var a :| 0 <= a < |u| && u[a] == t[0];
    var b :| 0 <= b < |t| && t[b] == u[0];
    assert ku >= key(u[a]);
    assert kt >= key(t[b]);
    assert Tied(t, key, kt) == [t[0]] + Tied(t[1..], key, kt);
    assert Tied(u, key, kt) == [u[0]] + Tied(u[1..], key, kt);
    assert Tied(t, key, kt) == Tied(u, key, kt);
    assert Tied(t, key, kt)[0] == t[0];
    assert Tied(u, key, kt)[0] == u[0];
  }

  /** Dropping an equal head keeps the tie classes equal. */
  lemma SortedTiedSameTail<T(!new)>(t: seq<T>, u: seq<T>, key: T -> real)
    requires |t| > 0 && |u| > 0 && t[0] == u[0]
    requires forall k :: Tied(t, key, k) == Tied(u, key, k)
    ensures forall k :: Tied(t[1..], key, k) == Tied(u[1..], key, k)
  {
    forall k
      ensures Tied(t[1..], key, k) == Tied(u[1..], key, k)
    {
      var h := if key(t[0]) == k then [t[0]] else [];
      assert Tied(t, key, k) == h + Tied(t[1..], key, k);
      assert Tied(u, key, k) == h + Tied(u[1..], key, k);
      assert Tied(t, key, k) == Tied(u, key, k);
      assert Tied(t[1..], key, k) == (h + Tied(t[1..], key, k))[|h|..];
      assert Tied(u[1..], key, k) == (h + Tied(u[1..], key, k))[|h|..];
    }
  }

  /** A stable descending sort is unique: `SortDesc` is the only one. */
  lemma StableSortUnique<T(!new)>(s: seq<T>, t: seq<T>, key: T -> real)
    requires IsStableSortDesc(s, t, key)
    ensures t == SortDesc(s, key)
  {
    SortDescIsStableSort(s, key);
    SortedTiedUnique(t, SortDesc(s, key), key);
  }

  /** Among elements with equal keys, the top-k keeps the earliest of the input:
      each tie class of the selection is a prefix of that class in `s`. */
  lemma TopKTiesKeepInputOrder<T(!new)>(s: seq<T>, key: T -> real, n: int, k: real)
    ensures Tied(TopK(s, key, n), key, k) <= Tied(s, key, k)
  {
    var sorted := SortDesc(s, key);
    var r := TopK(s, key, n);
    assert sorted == r + sorted[|r|..];
    TiedConcat(r, sorted[|r|..], key, k);
    SortDescStable(s, key, k);
  }

  /** `key` gives different elements of `xs` different keys. */
  ghost predicate InjectiveOn<T>(key: T -> real, xs: set<T>) {
    forall a, b :: a in xs && b in xs && key(a) == key(b) ==> a == b
  }

  /** A tie class takes part of `s`. */
  lemma {:induction false} TiedSubMultiset<T>(s: seq<T>, key: T -> real, k: real)
    ensures multiset(Tied(s, key, k)) <= multiset(s)
  {
    if |s| > 0 {
      TiedSubMultiset(s[1..], key, k);
      assert s == [s[0]] + s[1..];
    }
  }

  /** When keys are injective, a tie class of a sequence without repeats has
      at most one element. */
  lemma AtMostOneTied<T(!new)>(s: seq<T>, key: T -> real, k: real)
    requires Distinct(s)
    requires InjectiveOn(key, Elems(s))
    ensures |Tied(s, key, k)| <= 1
  {
    var a := Tied(s, key, k);
    TiedSubMultiset(s, key, k);
    SubMultisetDistinct(a, s);
    TiedMembers(s, key, k);
    forall i, j | 0 <= i < |a| && 0 <= j < |a|
      ensures a[i] == a[j]
    {
      assert a[i] in a && a[j] in a;
      assert a[i] in Elems(s) && a[j] in Elems(s);
    }
    DistinctCard(a);
    if |a| > 0 {
      assert Elems(a) <= {a[0]};
      SubsetCard(Elems(a), {a[0]});
    }
  }

  /** Sequences of length at most one with the same elements are equal. */
  lemma ShortSameElems<T(!new)>(a: seq<T>, b: seq<T>)
    requires |a| <= 1 && |b| <= 1
    requires forall y :: y in a <==> y in b
    ensures a == b
  {
    if |a| == 1 {
      assert a[0] in a;
    }
    if |b| == 1 {
      assert b[0] in b;
    }
  }

  /** When keys are injective, the tie classes of a sequence without repeats
      are the same for any ordering of its elements. */
  lemma InjectiveTiesAgree<T(!new)>(s: seq<T>, s': seq<T>, key: T -> real, k: real)
    requires Distinct(s) && Distinct(s') && Elems(s) == Elems(s')
    requires InjectiveOn(key, Elems(s))
    ensures Tied(s, key, k) == Tied(s', key, k)
  {
    AtMostOneTied(s, key, k);
    AtMostOneTied(s', key, k);
    TiedMembers(s, key, k);
    TiedMembers(s', key, k);
    assert forall y :: y in s <==> y in s' by {
      assert forall y :: y in s <==> y in Elems(s);
      assert forall y :: y in s' <==> y in Elems(s');
    }
    ShortSameElems(Tied(s, key, k), Tied(s', key, k));
  }

  /** With injective keys, the top-k of a sequence without repeats does not
      depend on the order the elements arrive in. */
  lemma TopKOrderIndependent<T(!new)>(s: seq<T>, s': seq<T>, key: T -> real, n: int)
    requires Distinct(s) && Distinct(s') && Elems(s) == Elems(s')
    requires InjectiveOn(key, Elems(s))
    ensures TopK(s, key, n) == TopK(s', key, n)
  {
    var t := SortDesc(s, key);
    forall k
      ensures Tied(t, key, k) == Tied(s', key, k)
    {
      SortDescStable(s, key, k);
      InjectiveTiesAgree(s, s', key, k);
    }
    StableSortUnique(s', t, key);
  }
}
