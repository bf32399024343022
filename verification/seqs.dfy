/** Generic sequence operations that pandas performs on frames: keep-first
    de-duplication (drop_duplicates), a stable sort by a total preorder
    (sort_values, the group order of pivot_table), and counting. */
module Seqs {
  import opened Wrappers

  predicate Distinct<T(==)>(s: seq<T>)
  {
    forall i, j :: 0 <= i < j < |s| ==> s[i] != s[j]
  }

  /** Position of the first occurrence of x in s. */
  function FirstIndex<T(==)>(s: seq<T>, x: T): (k: nat)
    requires x in s
    ensures k < |s| && s[k] == x && x !in s[..k]
  {
    if s[0] == x then 0 else 1 + FirstIndex(s[1..], x)
  }

  /** FirstIndex is the one position holding x with no x before it. */
  lemma FirstIndexUnique<T>(s: seq<T>, x: T, k: nat)
    requires k < |s| && s[k] == x && x !in s[..k]
    ensures FirstIndex(s, x) == k
  {
  }

  /** In a duplicate-free sequence every element is found where it is. */
  lemma FirstIndexOfDistinct<T>(s: seq<T>, k: nat)
    requires Distinct(s) && k < |s|
    ensures FirstIndex(s, s[k]) == k
  {
    FirstIndexUnique(s, s[k], k);
  }

  /** The first element of xs that is not in present: the column pandas
      names in the KeyError it raises when a selection df[xs] asks for a
      column the frame does not have. */
  function FirstMissing<T(==)>(xs: seq<T>, present: set<T>): (m: Option<T>)
    ensures m.None? <==> forall x :: x in xs ==> x in present
    ensures m.Some? ==> m.value in xs && m.value !in present
    ensures m.Some? ==> forall j :: 0 <= j < FirstIndex(xs, m.value) ==> xs[j] in present
  {
    if xs == [] then None
    else if xs[0] !in present then Some(xs[0])
    else FirstMissing(xs[1..], present)
  }

  /** drop_duplicates(keep='first'): every value once, at its first position. */
  function Dedup<T(==, !new)>(s: seq<T>): (r: seq<T>)
    ensures forall x :: x in r <==> x in s
    ensures Distinct(r)
    decreases |s|
  {
    if s == [] then []
    else
      var prev := Dedup(s[..|s| - 1]);
      if s[|s| - 1] in prev then prev else prev + [s[|s| - 1]]
  }

  lemma {:induction false} FirstIndexInPrefix<T>(s: seq<T>, n: nat, x: T)
    requires n <= |s| && x in s[..n]
    ensures FirstIndex(s, x) == FirstIndex(s[..n], x)
  {
    if s[0] != x {
      assert s[1..][..n - 1] == s[..n][1..];
      FirstIndexInPrefix(s[1..], n - 1, x);
    }
  }

  /** The kept values appear in the order of their first occurrences, so
      Dedup(s) is the only duplicate-free sequence with the values of s in
      that order. */
  lemma {:induction false} DedupKeepsFirstOccurrenceOrder<T(!new)>(s: seq<T>, i: nat, j: nat)
    requires i < j < |Dedup(s)|
    ensures FirstIndex(s, Dedup(s)[i]) < FirstIndex(s, Dedup(s)[j])
    decreases |s|
  {
    var init := s[..|s| - 1];
    var prev := Dedup(init);
    var r := Dedup(s);
    if j < |prev| {
      assert r[i] == prev[i] && r[j] == prev[j];
      DedupKeepsFirstOccurrenceOrder(init, i, j);
      FirstIndexInPrefix(s, |s| - 1, prev[i]);
      FirstIndexInPrefix(s, |s| - 1, prev[j]);
    } else {
      assert s[|s| - 1] !in init && r[j] == s[|s| - 1];
      assert r[i] == prev[i] && r[i] in init;
      FirstIndexInPrefix(s, |s| - 1, r[i]);
      assert s[..|s| - 1] == init;
      assert forall m :: 0 <= m < |s| - 1 ==> init[m] == s[m];
    }
  }

  /** `le` orders all values of T: total and transitive (ties allowed). */
  ghost predicate TotalPreorder<T(!new)>(le: (T, T) -> bool)
  {
    && (forall a, b :: le(a, b) || le(b, a))
    && (forall a, b, c :: le(a, b) && le(b, c) ==> le(a, c))
  }

  predicate SortedBy<T>(s: seq<T>, le: (T, T) -> bool)
  {
    forall i, j :: 0 <= i < j < |s| ==> le(s[i], s[j])
  }

  /** Inserts x before the first element it is at or below, so that x stays
      ahead of the elements that tie with it. */
  function Insert<T>(x: T, s: seq<T>, le: (T, T) -> bool): (r: seq<T>)
    ensures |r| == |s| + 1
  {
    if s == [] then [x]
    else if le(x, s[0]) then [x] + s
    else [s[0]] + Insert(x, s[1..], le)
  }

  /** Inserting adds x and takes nothing away. */
  lemma {:induction false} InsertPermutes<T>(x: T, s: seq<T>, le: (T, T) -> bool)
    ensures multiset(Insert(x, s, le)) == multiset(s) + multiset{x}
  {
    if s != [] && !le(x, s[0]) {
      InsertPermutes(x, s[1..], le);
      assert s == [s[0]] + s[1..];
    }
  }

  lemma {:induction false} InsertSorted<T(!new)>(x: T, s: seq<T>, le: (T, T) -> bool)
    requires TotalPreorder(le) && SortedBy(s, le)
    ensures SortedBy(Insert(x, s, le), le)
  {
    if s != [] && !le(x, s[0]) {
      var rest := Insert(x, s[1..], le);
      InsertSorted(x, s[1..], le);
      InsertPermutes(x, s[1..], le);
      HeadBelowAll(x, s, rest, le);
      var r := [s[0]] + rest;
      forall i, j | 0 <= i < j < |r| ensures le(r[i], r[j]) {
        if i == 0 { assert r[j] == rest[j - 1]; }
        else { assert r[i] == rest[i - 1] && r[j] == rest[j - 1]; }
      }
    }
  }

  /** The head of a sorted sequence that x does not go before is at or
      below everything in s[1..] with x added. */
  lemma HeadBelowAll<T(!new)>(x: T, s: seq<T>, rest: seq<T>, le: (T, T) -> bool)
    requires TotalPreorder(le) && SortedBy(s, le) && s != [] && !le(x, s[0])
    requires multiset(rest) == multiset(s[1..]) + multiset{x}
    ensures forall k :: 0 <= k < |rest| ==> le(s[0], rest[k])
  {
    forall k | 0 <= k < |rest| ensures le(s[0], rest[k]) {
      assert rest[k] in multiset(rest);
      if rest[k] != x {
        assert rest[k] in multiset(s[1..]);
        var m :| 0 <= m < |s[1..]| && s[1..][m] == rest[k];
        assert s[m + 1] == rest[k];
      }
    }
  }

  /** A stable insertion sort: the model of pandas' stable ordering. */
  function SortBy<T>(s: seq<T>, le: (T, T) -> bool): (r: seq<T>)
    ensures multiset(r) == multiset(s)
  {
    if s == [] then []
    else
      assert s == [s[0]] + s[1..];
      InsertPermutes(s[0], SortBy(s[1..], le), le);
      Insert(s[0], SortBy(s[1..], le), le)
  }

  /** The sort's result is ordered and is a permutation of its input. */
  lemma {:induction false} SortBySorted<T(!new)>(s: seq<T>, le: (T, T) -> bool)
    requires TotalPreorder(le)
    ensures SortedBy(SortBy(s, le), le) && multiset(SortBy(s, le)) == multiset(s)
  {
    if s != [] {
      SortBySorted(s[1..], le);
      InsertSorted(s[0], SortBy(s[1..], le), le);
    }
  }

  /** The elements of s that tie with x under le, in their order in s. */
  function TiesOf<T>(s: seq<T>, x: T, le: (T, T) -> bool): (r: seq<T>)
    ensures |r| <= |s|
  {
    if s == [] then []
    else (if le(x, s[0]) && le(s[0], x) then [s[0]] else []) + TiesOf(s[1..], x, le)
  }

  /** Inserting h puts it ahead of every element it ties with and leaves
      the order of the others alone. */
  lemma {:induction false} InsertTies<T(!new)>(h: T, t: seq<T>, x: T, le: (T, T) -> bool)
    requires TotalPreorder(le)
    ensures TiesOf(Insert(h, t, le), x, le) ==
      (if le(x, h) && le(h, x) then [h] else []) + TiesOf(t, x, le)
  {
    if t == [] {
      assert Insert(h, t, le) == [h];
      assert [h][1..] == t;
    } else if le(h, t[0]) {
      assert Insert(h, t, le) == [h] + t;
      assert ([h] + t)[1..] == t;
    } else {
      InsertTies(h, t[1..], x, le);
      if le(x, h) && le(h, x) {
        NotTiedAhead(h, t[0], x, le);
      }
      InsertTiesStep(h, t, x, le);
    }
  }

  /** One step of InsertTies: h goes past the head of t. */
  lemma InsertTiesStep<T>(h: T, t: seq<T>, x: T, le: (T, T) -> bool)
    requires t != [] && !le(h, t[0])
    requires TiesOf(Insert(h, t[1..], le), x, le) ==
      (if le(x, h) && le(h, x) then [h] else []) + TiesOf(t[1..], x, le)
    requires le(x, h) && le(h, x) ==> !(le(x, t[0]) && le(t[0], x))
    ensures TiesOf(Insert(h, t, le), x, le) ==
      (if le(x, h) && le(h, x) then [h] else []) + TiesOf(t, x, le)
  {
    var t0, rest := t[0], Insert(h, t[1..], le);
    var u := [t0] + rest;
    assert Insert(h, t, le) == u;
    assert u[0] == t0 && u[1..] == rest;
    var tail := TiesOf(t[1..], x, le);
    if le(x, h) && le(h, x) {
      assert TiesOf(u, x, le) == TiesOf(rest, x, le) == [h] + tail;
      assert TiesOf(t, x, le) == tail;
    } else {
      assert TiesOf(rest, x, le) == tail;
      if le(x, t0) && le(t0, x) {
        assert TiesOf(u, x, le) == [t0] + tail == TiesOf(t, x, le);
      } else {
        assert TiesOf(u, x, le) == tail == TiesOf(t, x, le);
      }
    }
  }


  /** An element h does not go before is not tied with anything h ties
      with. */
  lemma NotTiedAhead<T(!new)>(h: T, y: T, x: T, le: (T, T) -> bool)
    requires TotalPreorder(le) && le(x, h) && le(h, x) && !le(h, y)
    ensures !(le(x, y) && le(y, x))
  {
  }



  /** The sort is stable: the elements that tie with any x come out in
      their input order. */
  lemma {:induction false} SortByStable<T(!new)>(s: seq<T>, x: T, le: (T, T) -> bool)
    requires TotalPreorder(le)
    ensures TiesOf(SortBy(s, le), x, le) == TiesOf(s, x, le)
  {
    if s != [] {
      SortByStable(s[1..], x, le);
      InsertTies(s[0], SortBy(s[1..], le), x, le);
    }
  }

  /** Number of elements of s that satisfy p. */
  function Count<T>(s: seq<T>, p: T -> bool): (n: nat)
    ensures n <= |s|
  {
    if s == [] then 0 else (if p(s[0]) then 1 else 0) + Count(s[1..], p)
  }

  lemma {:induction false} CountAppend<T>(a: seq<T>, b: seq<T>, p: T -> bool)
    ensures Count(a + b, p) == Count(a, p) + Count(b, p)
  {
    if a == [] {
      assert a + b == b;
    } else {
      assert (a + b)[0] == a[0] && (a + b)[1..] == a[1..] + b;
      CountAppend(a[1..], b, p);
    }
  }

  /** Taking out the element at k takes one copy of it out of the multiset. */
  lemma MultisetRemoveAt<T>(b: seq<T>, k: nat)
    requires k < |b|
    ensures multiset(b[..k] + b[k + 1..]) == multiset(b) - multiset{b[k]}
  {
    assert b == b[..k] + [b[k]] + b[k + 1..];
    assert multiset(b) == multiset(b[..k]) + multiset{b[k]} + multiset(b[k + 1..]);
  }

  /** A permutation of a non-empty sequence holds its head somewhere, and
      without it is a permutation of the tail. */
  lemma RemoveFirst<T>(a: seq<T>, b: seq<T>) returns (j: nat)
    requires multiset(a) == multiset(b) && a != []
    ensures j < |b| && b[j] == a[0] && multiset(a[1..]) == multiset(b[..j] + b[j + 1..])
  {
    assert a[0] in multiset(b);
    j :| 0 <= j < |b| && b[j] == a[0];
    MultisetRemoveAt(b, j);
    assert a == [a[0]] + a[1..];
  }

  /** Taking out the element at k takes it out of the count. */
  lemma {:induction false} CountRemoveAt<T>(b: seq<T>, k: nat, p: T -> bool)
    requires k < |b|
    ensures Count(b, p) == (if p(b[k]) then 1 else 0) + Count(b[..k] + b[k + 1..], p)
  {
    if k > 0 {
      var t := b[1..];
      CountRemoveAt(t, k - 1, p);
      assert t[k - 1] == b[k];
      assert b[..k] + b[k + 1..] == [b[0]] + (t[..k - 1] + t[k..]);
      assert ([b[0]] + (t[..k - 1] + t[k..]))[1..] == t[..k - 1] + t[k..];
    } else {
      assert b[..k] + b[k + 1..] == b[1..];
    }
  }

  /** Counting does not depend on the order of the elements. */
  lemma {:induction false} CountPermutation<T>(a: seq<T>, b: seq<T>, p: T -> bool)
    requires multiset(a) == multiset(b)
    ensures Count(a, p) == Count(b, p)
    decreases |a|
  {
    if a != [] {
      assert a[0] in multiset(b);
      var k :| 0 <= k < |b| && b[k] == a[0];
      var b' := b[..k] + b[k + 1..];
      assert a == [a[0]] + a[1..];
      assert multiset(a[1..]) == multiset(a) - multiset{a[0]};
      MultisetRemoveAt(b, k);
      CountPermutation(a[1..], b', p);
      CountRemoveAt(b, k, p);
    }
  }

  /** A prefix whose elements all satisfy p is counted in full. */
  lemma {:induction false} CountAtLeastPrefix<T>(s: seq<T>, k: nat, p: T -> bool)
    requires k <= |s| && forall i :: 0 <= i < k ==> p(s[i])
    ensures Count(s, p) >= k
  {
    if k > 0 {
      CountAtLeastPrefix(s[1..], k - 1, p);
    }
  }

  /** A suffix whose elements all satisfy p is counted in full. */
  lemma CountAtLeastSuffix<T>(s: seq<T>, k: nat, p: T -> bool)
    requires k <= |s| && forall i :: k <= i < |s| ==> p(s[i])
    ensures Count(s, p) >= |s| - k
  {
    assert s == s[..k] + s[k..];
    CountAppend(s[..k], s[k..], p);
    CountAtLeastPrefix(s[k..], |s| - k, p);
  }

  /** Sum of a sequence of reals. */
  function Sum(xs: seq<real>): real
  {
    if xs == [] then 0.0 else xs[0] + Sum(xs[1..])
  }

  lemma {:induction false} SumAppend(a: seq<real>, b: seq<real>)
    ensures Sum(a + b) == Sum(a) + Sum(b)
  {
    if a == [] {
      assert a + b == b;
    } else {
      assert (a + b)[0] == a[0] && (a + b)[1..] == a[1..] + b;
      SumAppend(a[1..], b);
    }
  }

  lemma {:induction false} DistinctMultiplicity<T>(s: seq<T>, x: T)
    requires Distinct(s)
    ensures multiset(s)[x] <= 1
  {
    if s != [] {
      assert forall i, j :: 0 <= i < j < |s[1..]| ==> s[1..][i] == s[i + 1] && s[1..][j] == s[j + 1];
      DistinctMultiplicity(s[1..], x);
      assert s == [s[0]] + s[1..];
      assert multiset(s) == multiset{s[0]} + multiset(s[1..]);
      assert forall k :: 0 <= k < |s[1..]| ==> s[1..][k] != s[0];
      assert s[0] !in multiset(s[1..]);
    }
  }

  lemma RepeatedValueMultiplicity<T>(t: seq<T>, i: nat, j: nat)
    requires i < j < |t|
    ensures t[i] == t[j] ==> multiset(t)[t[i]] >= 2
  {
    assert t == t[..i] + [t[i]] + t[i + 1..j] + [t[j]] + t[j + 1..];
    assert multiset(t) == multiset(t[..i]) + multiset{t[i]} + multiset(t[i + 1..j])
                          + multiset{t[j]} + multiset(t[j + 1..]);
  }

  /** A permutation of a duplicate-free sequence is duplicate-free. */
  lemma DistinctPermutation<T>(s: seq<T>, t: seq<T>)
    requires Distinct(s) && multiset(s) == multiset(t)
    ensures Distinct(t)
  {
    forall i, j | 0 <= i < j < |t| ensures t[i] != t[j] {
      DistinctMultiplicity(s, t[i]);
      RepeatedValueMultiplicity(t, i, j);
    }
  }

  /** A duplicate-free sequence has as many elements as values. */
  lemma {:induction false} DistinctCardinality<T>(s: seq<T>)
    requires Distinct(s)
    ensures |set x | x in s| == |s|
  {
    if s != [] {
      assert forall i, j :: 0 <= i < j < |s[1..]| ==> s[1..][i] == s[i + 1] && s[1..][j] == s[j + 1];
      DistinctCardinality(s[1..]);
      assert forall k :: 0 <= k < |s[1..]| ==> s[1..][k] != s[0];
      assert (set x | x in s) == {s[0]} + (set x | x in s[1..]);
    }
  }

  /** Every element of s paired with n, as the second component. */
  function Paired(n: nat, s: set<nat>): set<(nat, nat)>
  {
    set j | j in s :: (n, j)
  }

  /** Pairing every element of a set with the same first component keeps
      the size of the set. */
  lemma {:induction false} PairedSize(n: nat, s: set<nat>)
    ensures |Paired(n, s)| == |s|
    decreases |s|
  {
    if s != {} {
      var x :| x in s;
      var smaller := s - {x};
      PairedSize(n, smaller);
      var rest := Paired(n, smaller);
      forall p | p in Paired(n, s) ensures p in rest + {(n, x)} {
        var j :| j in s && p == (n, j);
        if j != x {
          assert j in smaller;
        }
      }
      assert Paired(n, s) == rest + {(n, x)};
      assert (n, x) !in rest;
    }
  }



  /** drop_duplicates leaves one element per distinct value. */
  lemma DedupLength<T(!new)>(s: seq<T>)
    ensures |Dedup(s)| == |set x | x in s|
  {
    DistinctCardinality(Dedup(s));
    assert (set x | x in Dedup(s)) == (set x | x in s);
  }

}
