// The library sort the source relies on: stable, by a total preorder.
module Sorting {

  lemma Associative<T>(a: seq<T>, b: seq<T>, c: seq<T>)
    ensures a + (b + c) == (a + b) + c
  {
  }

  function Insert<T>(x: T, s: seq<T>, leq: (T, T) -> bool): (r: seq<T>)
    ensures |r| == |s| + 1
  {
    if s == [] then [x]
    else if leq(x, s[0]) then [x] + s
    else [s[0]] + Insert(x, s[1..], leq)
  }

  function Sort<T>(s: seq<T>, leq: (T, T) -> bool): (r: seq<T>)
    ensures |r| == |s|
  {
    if s == [] then [] else Insert(s[0], Sort(s[1..], leq), leq)
  }

  ghost predicate TotalPreorder<T(!new)>(leq: (T, T) -> bool) {
    && (forall x, y :: leq(x, y) || leq(y, x))
    && (forall x, y, z :: leq(x, y) && leq(y, z) ==> leq(x, z))
  }

  ghost predicate Sorted<T>(s: seq<T>, leq: (T, T) -> bool) {
    forall i, j :: 0 <= i < j < |s| ==> leq(s[i], s[j])
  }

  // leq tells the elements of s apart.
  ghost predicate Antisymmetric<T>(s: seq<T>, leq: (T, T) -> bool) {
    forall x, y :: x in s && y in s && leq(x, y) && leq(y, x) ==> x == y
  }

  ghost predicate Permutation<T>(a: seq<T>, b: seq<T>) {
    multiset(a) == multiset(b)
  }

  lemma {:induction false} InsertPermutes<T>(x: T, s: seq<T>, leq: (T, T) -> bool)
    ensures Permutation(Insert(x, s, leq), [x] + s)
  {
    if s != [] && !leq(x, s[0]) {
      InsertPermutes(x, s[1..], leq);
      assert s == [s[0]] + s[1..];
    }
  }

  lemma {:induction false} SortPermutes<T>(s: seq<T>, leq: (T, T) -> bool)
    ensures Permutation(Sort(s, leq), s)
  {
    if s != [] {
      SortPermutes(s[1..], leq);
      InsertPermutes(s[0], Sort(s[1..], leq), leq);
      assert s == [s[0]] + s[1..];
    }
  }

  lemma {:induction false} InsertSorted<T(!new)>(x: T, s: seq<T>, leq: (T, T) -> bool)
    requires TotalPreorder(leq) && Sorted(s, leq)
    ensures Sorted(Insert(x, s, leq), leq)
  {
    if s != [] && !leq(x, s[0]) {
      InsertSorted(x, s[1..], leq);
      var rest := Insert(x, s[1..], leq);
      InsertPermutes(x, s[1..], leq);
      forall j | 0 <= j < |rest|
        ensures leq(s[0], rest[j])
      {
        SamePermutationMembers(rest, [x] + s[1..], rest[j]);
      }
    }
  }

  lemma SamePermutationMembers<T>(a: seq<T>, b: seq<T>, x: T)
    requires x in a
    requires Permutation(a, b)
    ensures x in b
  {
    assert x in multiset(a);
  }

  lemma {:induction false} SortSorts<T(!new)>(s: seq<T>, leq: (T, T) -> bool)
    requires TotalPreorder(leq)
    ensures Sorted(Sort(s, leq), leq)
  {
    if s != [] {
      SortSorts(s[1..], leq);
      InsertSorted(s[0], Sort(s[1..], leq), leq);
    }
  }

  // Each of two first elements is somewhere in the other order, so neither comes before the other.
  lemma LeastIsFirst<T>(a: seq<T>, b: seq<T>, leq: (T, T) -> bool)
    requires Permutation(a, b) && Sorted(a, leq) && Sorted(b, leq) && Antisymmetric(a, leq)
    requires a != [] && b != []
    ensures a[0] == b[0]
  {
    SamePermutationMembers(a, b, a[0]);
    SamePermutationMembers(b, a, b[0]);
  }

  lemma RestsPermute<T>(a: seq<T>, b: seq<T>)
    requires Permutation(a, b) && a != [] && b != [] && a[0] == b[0]
    ensures Permutation(a[1..], b[1..])
  {
    var restA := Without(a, 0);
    var restB := Without(b, 0);
    assert restA == a[1..] && restB == b[1..];
  }

  // An order that tells the elements apart leaves one way to sort them.
  lemma {:induction false} OneSortedOrder<T>(a: seq<T>, b: seq<T>, leq: (T, T) -> bool)
    requires Permutation(a, b) && Sorted(a, leq) && Sorted(b, leq) && Antisymmetric(a, leq)
    ensures a == b
    decreases |a|
  {
    assert |multiset(a)| == |multiset(b)|;
    if a != [] {
      LeastIsFirst(a, b, leq);
      RestsPermute(a, b);
      hide Permutation;
      OneSortedOrder(a[1..], b[1..], leq);
      assert a == [a[0]] + a[1..] && b == [b[0]] + b[1..];
    }
  }

  // In order, and among equals by number.
  ghost predicate StablySorted(s: seq<nat>, leq: (nat, nat) -> bool) {
    forall i, j :: 0 <= i < j < |s| ==> leq(s[i], s[j]) && (leq(s[j], s[i]) ==> s[i] < s[j])
  }

  lemma ConsStable(first: nat, rest: seq<nat>, leq: (nat, nat) -> bool)
    requires StablySorted(rest, leq)
    requires forall i :: 0 <= i < |rest| ==> leq(first, rest[i]) && (leq(rest[i], first) ==> first < rest[i])
    ensures StablySorted([first] + rest, leq)
  {
  }

  lemma {:induction false} InsertStable(x: nat, s: seq<nat>, leq: (nat, nat) -> bool)
    requires TotalPreorder(leq) && StablySorted(s, leq) && forall i :: 0 <= i < |s| ==> x < s[i]
    ensures StablySorted(Insert(x, s, leq), leq)
  {
    if s != [] && leq(x, s[0]) {
      forall i | 0 <= i < |s|
        ensures leq(x, s[i])
      {
        assert i > 0 ==> leq(s[0], s[i]);
      }
      hide TotalPreorder, StablySorted;
      ConsStable(x, s, leq);
    } else if s != [] {
      var rest := Insert(x, s[1..], leq);
      assert leq(s[0], x) && forall i :: 0 < i < |s| ==> leq(s[0], s[i]) && (leq(s[i], s[0]) ==> s[0] < s[i]);
      assert StablySorted(s[1..], leq);
      hide TotalPreorder, StablySorted;
      InsertStable(x, s[1..], leq);
      InsertPermutes(x, s[1..], leq);
      hide Insert;
      forall j | 0 <= j < |rest|
        ensures leq(s[0], rest[j]) && (leq(rest[j], s[0]) ==> s[0] < rest[j])
      {
        SamePermutationMembers(rest, [x] + s[1..], rest[j]);
      }
      ConsStable(s[0], rest, leq);
    }
  }

  // Sorting is stable: what is listed in increasing order stays so among equals.
  lemma {:induction false} SortStable(s: seq<nat>, leq: (nat, nat) -> bool)
    requires TotalPreorder(leq) && forall i, j :: 0 <= i < j < |s| ==> s[i] < s[j]
    ensures StablySorted(Sort(s, leq), leq)
  {
    if s != [] {
      SortStable(s[1..], leq);
      SortPermutes(s[1..], leq);
      forall i | 0 <= i < |s| - 1
        ensures s[0] < Sort(s[1..], leq)[i]
      {
        SamePermutationMembers(Sort(s[1..], leq), s[1..], Sort(s[1..], leq)[i]);
      }
      InsertStable(s[0], Sort(s[1..], leq), leq);
    }
  }

  // ---------------------------------------------------------------------------
  // Index lists
  // ---------------------------------------------------------------------------

  function Range(n: nat): (r: seq<nat>)
    ensures |r| == n && forall i :: 0 <= i < n ==> r[i] == i
  {
    seq(n, i => i)
  }

  lemma RangeGrows(n: nat)
    ensures Range(n + 1) == Range(n) + [n]
  {
  }

  ghost predicate Distinct<T>(s: seq<T>) {
    forall i, j :: 0 <= i < j < |s| ==> s[i] != s[j]
  }

  lemma {:induction false} DistinctCount<T>(s: seq<T>)
    ensures Distinct(s) <==> forall x :: multiset(s)[x] <= 1
  {
    if s != [] {
      DistinctCount(s[1..]);
      assert s == [s[0]] + s[1..];
      assert multiset(s) == multiset{s[0]} + multiset(s[1..]);
      if Distinct(s) {
        assert s[0] !in s[1..];
      } else if Distinct(s[1..]) {
        var i, j :| 0 <= i < j < |s| && s[i] == s[j];
        assert i == 0;
        assert s[1..][j - 1] == s[0];
        assert multiset(s)[s[0]] >= 2;
      } else {
        var x :| multiset(s[1..])[x] > 1;
        assert multiset(s)[x] > 1;
      }
    }
  }

  lemma DistinctPermutation<T>(a: seq<T>, b: seq<T>)
    requires Permutation(a, b) && Distinct(a)
    ensures Distinct(b) && |a| == |b| && forall x :: x in a <==> x in b
  {
    DistinctCount(a);
    DistinctCount(b);
    assert |multiset(a)| == |multiset(b)|;
    forall x ensures x in a <==> x in b {
      assert x in a <==> x in multiset(a);
      assert x in b <==> x in multiset(b);
    }
  }

  // A permutation of 0 .. n-1.
  lemma RangePermutation(s: seq<nat>, n: nat)
    requires Permutation(s, Range(n))
    ensures |s| == n && Distinct(s) && forall i: nat :: i in s <==> i < n
  {
    DistinctPermutation(Range(n), s);
    forall i: nat ensures i in Range(n) <==> i < n {
      if i < n {
        assert Range(n)[i] == i;
      }
    }
  }

  ghost predicate Indexes<T>(idx: seq<nat>, xs: seq<T>) {
    forall k :: 0 <= k < |idx| ==> idx[k] < |xs|
  }

  // xs[idx[0]], xs[idx[1]], ...
  ghost function Gather<T>(xs: seq<T>, idx: seq<nat>): (r: seq<T>)
    requires Indexes(idx, xs)
    ensures |r| == |idx| && forall k :: 0 <= k < |idx| ==> r[k] == xs[idx[k]]
  {
    seq(|idx|, k requires 0 <= k < |idx| => xs[idx[k]])
  }

  lemma Without<T>(s: seq<T>, j: nat) returns (rest: seq<T>)
    requires j < |s|
    ensures rest == s[..j] + s[j + 1..]
    ensures multiset(rest) == multiset(s) - multiset{s[j]}
    ensures multiset(s) == multiset{s[j]} + multiset(rest)
  {
    rest := s[..j] + s[j + 1..];
    assert s == s[..j] + ([s[j]] + s[j + 1..]);
  }

  // Leaving out the index at position j leaves out one element.
  lemma DropIndex<T>(xs: seq<T>, idx: seq<nat>, j: nat) returns (rest: seq<nat>)
    requires Indexes(idx, xs) && j < |idx|
    ensures Indexes(rest, xs) && |rest| == |idx| - 1
    ensures multiset(rest) == multiset(idx) - multiset{idx[j]}
    ensures multiset(Gather(xs, idx)) == multiset{xs[idx[j]]} + multiset(Gather(xs, rest))
  {
    rest := Without(idx, j);
    var gathered := Without(Gather(xs, idx), j);
    assert gathered == Gather(xs, rest);
  }

  lemma {:induction false} GatherPermutes<T>(xs: seq<T>, a: seq<nat>, b: seq<nat>)
    requires Indexes(a, xs) && Indexes(b, xs) && Permutation(a, b)
    ensures Permutation(Gather(xs, a), Gather(xs, b))
    decreases |a|
  {
    assert |multiset(a)| == |multiset(b)|;
    if a == [] {
      assert Gather(xs, a) == [] == Gather(xs, b);
    } else {
      SamePermutationMembers(a, b, a[0]);
      var j :| 0 <= j < |b| && b[j] == a[0];
      hide Gather, Indexes;
      var a' := DropIndex(xs, a, 0);
      var b' := DropIndex(xs, b, j);
      GatherPermutes(xs, a', b');
    }
  }

  lemma GatherRange<T>(xs: seq<T>, idx: seq<nat>)
    requires Permutation(idx, Range(|xs|))
    ensures Indexes(idx, xs) && Permutation(Gather(xs, idx), xs)
  {
    RangePermutation(idx, |xs|);
    forall k | 0 <= k < |idx| ensures idx[k] < |xs| {
      assert idx[k] in idx;
    }
    GatherPermutes(xs, idx, Range(|xs|));
    assert Gather(xs, Range(|xs|)) == xs;
  }
}
