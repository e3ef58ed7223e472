/** Lists: distinctness, repeats, counting and sorting. */
module Lists {
  import opened Wrappers

  ghost predicate Distinct<P>(s: seq<P>) { forall i, j :: 0 <= i < j < |s| ==> s[i] != s[j] }

  function IndexOf<P(==)>(s: seq<P>, p: P): (i: nat)
    requires p in s
    ensures i < |s| && s[i] == p
  {
    if s[0] == p then 0 else 1 + IndexOf(s[1..], p)
  }

  ghost function Members<A>(s: seq<A>): set<A> { set x | x in s }

  lemma {:induction false} DistinctSize<A>(s: seq<A>)
    requires Distinct(s)
    ensures |Members(s)| == |s|
  {
    if |s| > 0 {
      var k := |s| - 1;
      DistinctSize(s[..k]);
      assert s == s[..k] + [s[k]];
      assert Members(s) == Members(s[..k]) + {s[k]};
      assert s[k] !in s[..k];
    }
  }

  lemma SubsetSize<A>(a: set<A>, b: set<A>)
    requires a <= b
    ensures |a| <= |b| && (|a| == |b| ==> a == b)
  {
    assert b == a + (b - a);
  }

  ghost function Interval(n: nat): (s: set<nat>)
    ensures |s| == n && forall x :: x in s <==> 1 <= x <= n
  {
    if n == 0 then {} else Interval(n - 1) + {n}
  }

  /** The first entry that repeats an earlier one. */
  function FirstRepeat(s: seq<nat>): (r: Option<nat>)
    ensures r.None? <==> Distinct(s)
    ensures r.Some? ==> exists i, j :: 0 <= i < j < |s| && s[i] == s[j] == r.value
  {
    if |s| == 0 then None
    else
      var k := |s| - 1;
      var r := FirstRepeat(s[..k]);
      if r.Some? then
        assert forall i :: 0 <= i < k ==> s[..k][i] == s[i];
        r
      else if s[k] in s[..k] then
        var i :| 0 <= i < k && s[..k][i] == s[k];
        assert s[i] == s[k];
        Some(s[k])
      else None
  }

  lemma {:induction false} FirstRepeatPrefix(s: seq<nat>, k: nat)
    requires k <= |s| && FirstRepeat(s[..k]).Some?
    ensures FirstRepeat(s) == FirstRepeat(s[..k])
    decreases |s|
  {
    if k == |s| {
      assert s[..k] == s;
    } else {
      assert s[..|s| - 1][..k] == s[..k];
      FirstRepeatPrefix(s[..|s| - 1], k);
    }
  }

  /** A loop that inserts into a set and stops at the first repeat. */
  method FindRepeat(s: seq<nat>) returns (r: Option<nat>)
    ensures r == FirstRepeat(s)
  {
    var seen: set<nat> := {};
    for i := 0 to |s|
      invariant seen == set x | x in s[..i]
      invariant FirstRepeat(s[..i]).None?
    {
      assert s[..i + 1][..i] == s[..i];
      if s[i] in seen {
        FirstRepeatPrefix(s, i + 1);
        return Some(s[i]);
      }
      seen := seen + {s[i]};
      assert s[..i + 1] == s[..i] + [s[i]];
    }
    assert s[..|s|] == s;
    r := None;
  }

  /** How many entries lie below b. */
  function CountBelow(s: seq<nat>, b: nat): nat {
    if |s| == 0 then 0
    else CountBelow(s[..|s| - 1], b) + (if s[|s| - 1] < b then 1 else 0)
  }

  lemma {:induction false} CountBelowAll(s: seq<nat>, b: nat)
    requires forall i :: 0 <= i < |s| ==> s[i] < b
    ensures CountBelow(s, b) == |s|
  {
    if |s| > 0 {
      CountBelowAll(s[..|s| - 1], b);
    }
  }

  function CountEqual(s: seq<nat>, x: nat): (n: nat)
    ensures n <= |s|
  {
    if |s| == 0 then 0 else CountEqual(s[..|s| - 1], x) + (if s[|s| - 1] == x then 1 else 0)
  }

  lemma {:induction false} CountBelowMonotone(s: seq<nat>, a: nat, b: nat)
    requires a <= b
    ensures CountBelow(s, a) <= CountBelow(s, b)
  {
    if |s| > 0 {
      CountBelowMonotone(s[..|s| - 1], a, b);
    }
  }

  lemma {:induction false} DistinctMultiset<A>(s: seq<A>)
    requires Distinct(s)
    ensures multiset(s) == multiset(Members(s))
  {
    if |s| > 0 {
      var k := |s| - 1;
      DistinctMultiset(s[..k]);
      assert s == s[..k] + [s[k]];
      assert Members(s) == Members(s[..k]) + {s[k]};
      assert s[k] !in s[..k];
    }
  }

  /** Distinct lists with the same members are rearrangements of each other. */
  lemma SameMembers<A>(a: seq<A>, b: seq<A>)
    requires Distinct(a) && Distinct(b) && Members(a) == Members(b)
    ensures multiset(a) == multiset(b)
  {
    DistinctMultiset(a);
    DistinctMultiset(b);
  }

  /** A rearrangement of a distinct list is distinct. */
  lemma DistinctOrder<A>(a: seq<A>, b: seq<A>)
    requires Distinct(a) && multiset(a) == multiset(b)
    ensures Distinct(b)
  {
    DistinctMultiset(a);
    forall i, j | 0 <= i < j < |b|
      ensures b[i] != b[j]
    {
      WithoutMultiset(b, i);
      assert Without(b, i)[j - 1] == b[j];
      assert multiset(b)[b[i]] <= 1;
    }
  }

  function MapSeq<A, B>(f: A -> B, s: seq<A>): (t: seq<B>)
    ensures |t| == |s| && forall i :: 0 <= i < |s| ==> t[i] == f(s[i])
  {
    seq(|s|, i requires 0 <= i < |s| => f(s[i]))
  }

  function Without<A>(s: seq<A>, k: nat): (t: seq<A>)
    requires k < |s|
    ensures |t| == |s| - 1
  {
    s[..k] + s[k + 1..]
  }

  lemma WithoutMultiset<A>(s: seq<A>, k: nat)
    requires k < |s|
    ensures multiset(s) == multiset(Without(s, k)) + multiset{s[k]}
  {
    assert s == s[..k] + [s[k]] + s[k + 1..];
  }

  /** A rearrangement of a non-empty list holds its last element somewhere. */
  lemma TakeOut<A>(a: seq<A>, b: seq<A>) returns (k: nat)
    requires multiset(a) == multiset(b) && |a| > 0
    ensures k < |b| && b[k] == a[|a| - 1] && multiset(a[..|a| - 1]) == multiset(Without(b, k))
  {
    var l := |a| - 1;
    assert a == a[..l] + [a[l]];
    assert a[l] in multiset(b);
    k :| 0 <= k < |b| && b[k] == a[l];
    WithoutMultiset(b, k);
    assert multiset(a) == multiset(a[..l]) + multiset{a[l]};
    assert multiset(a[..l]) == multiset(a) - multiset{a[l]};
    assert multiset(Without(b, k)) == multiset(b) - multiset{b[k]};
  }

  /** Mapping keeps rearrangements. */
  lemma {:induction false} MapOrder<A, B>(f: A -> B, a: seq<A>, b: seq<A>)
    requires multiset(a) == multiset(b)
    ensures multiset(MapSeq(f, a)) == multiset(MapSeq(f, b))
  {
    if |a| == 0 {
      assert |multiset(b)| == |b|;
    } else {
      var l := |a| - 1;
      var k := TakeOut(a, b);
      MapOrder(f, a[..l], Without(b, k));
      assert Without(MapSeq(f, b), k) == MapSeq(f, Without(b, k));
      WithoutMultiset(MapSeq(f, b), k);
      assert Without(MapSeq(f, a), l) == MapSeq(f, a[..l]);
      WithoutMultiset(MapSeq(f, a), l);
    }
  }

  lemma {:induction false} CountBelowWithout(s: seq<nat>, k: nat, x: nat)
    requires k < |s|
    ensures CountBelow(s, x) == CountBelow(Without(s, k), x) + (if s[k] < x then 1 else 0)
  {
    var l := |s| - 1;
    if k == l {
      assert Without(s, k) == s[..l];
    } else {
      CountBelowWithout(s[..l], k, x);
      assert Without(s, k)[..l - 1] == Without(s[..l], k);
    }
  }

  lemma {:induction false} CountBelowOrder(a: seq<nat>, b: seq<nat>, x: nat)
    requires multiset(a) == multiset(b)
    ensures CountBelow(a, x) == CountBelow(b, x)
  {
    if |a| == 0 {
      assert |multiset(b)| == |b|;
    } else {
      var k := TakeOut(a, b);
      CountBelowOrder(a[..|a| - 1], Without(b, k), x);
      CountBelowWithout(b, k, x);
    }
  }

  // ---------------------------------------------------------------- sorting

  ghost predicate Sorted(s: seq<nat>) { forall i, j :: 0 <= i < j < |s| ==> s[i] <= s[j] }

  function Insert(s: seq<nat>, x: nat): (r: seq<nat>)
    requires Sorted(s)
    ensures Sorted(r) && |r| == |s| + 1
    ensures r[|r| - 1] == if |s| == 0 || s[|s| - 1] <= x then x else s[|s| - 1]
  {
    if |s| == 0 then [x]
    else
      var k := |s| - 1;
      if s[k] <= x then s + [x] else Insert(s[..k], x) + [s[k]]
  }

  /** The ascending rearrangement (see SortMultiset). */
  function Sort(s: seq<nat>): (r: seq<nat>)
    ensures Sorted(r) && |r| == |s|
  {
    if |s| == 0 then [] else Insert(Sort(s[..|s| - 1]), s[|s| - 1])
  }

  lemma {:induction false} InsertMultiset(s: seq<nat>, x: nat)
    requires Sorted(s)
    ensures multiset(Insert(s, x)) == multiset(s) + multiset{x}
  {
    if |s| > 0 {
      var k := |s| - 1;
      assert s == s[..k] + [s[k]];
      if s[k] > x {
        InsertMultiset(s[..k], x);
      }
    }
  }

  lemma MultisetAppend<A>(s: seq<A>, x: A)
    ensures multiset(s + [x]) == multiset(s) + multiset{x}
  {
  }

  /** A split of all entries but the last is extended by the last, on either side. */
  lemma MultisetSplit<A>(q: seq<A>, d: seq<A>, e: seq<A>)
    requires |q| > 0 && multiset(q[..|q| - 1]) == multiset(d) + multiset(e)
    ensures
      var x := q[|q| - 1];
      && multiset(q) == multiset(d + [x]) + multiset(e + []) && multiset(q) == multiset(d + []) + multiset(e + [x])
  {
    var k := |q| - 1;
    assert q == q[..k] + [q[k]] && d + [] == d && e + [] == e;
    MultisetAppend(q[..k], q[k]);
    MultisetAppend(d, q[k]);
    MultisetAppend(e, q[k]);
  }

  lemma {:induction false} SortMultiset(s: seq<nat>)
    ensures multiset(Sort(s)) == multiset(s)
  {
    if |s| > 0 {
      var k := |s| - 1;
      SortMultiset(s[..k]);
      InsertMultiset(Sort(s[..k]), s[k]);
      assert s == s[..k] + [s[k]];
      MultisetAppend(s[..k], s[k]);
    }
  }

  lemma DistinctAppend<A>(s: seq<A>, x: A)
    requires Distinct(s) && x !in s
    ensures Distinct(s + [x])
  {
  }

  lemma CountEqualAppend(s: seq<nat>, y: nat, x: nat)
    ensures CountEqual(s + [y], x) == CountEqual(s, x) + (if y == x then 1 else 0)
  {
    assert (s + [y])[..|s|] == s;
  }

  lemma {:induction false} CountBelowInsert(s: seq<nat>, x: nat, b: nat)
    requires Sorted(s)
    ensures CountBelow(Insert(s, x), b) == CountBelow(s, b) + (if x < b then 1 else 0)
  {
    if |s| > 0 {
      var k := |s| - 1;
      var r := Insert(s, x);
      if s[k] <= x {
        assert r[..|s|] == s;
      } else {
        CountBelowInsert(s[..k], x, b);
        assert r[..|s|] == Insert(s[..k], x);
      }
    }
  }

  lemma {:induction false} CountBelowSort(s: seq<nat>, b: nat)
    ensures CountBelow(Sort(s), b) == CountBelow(s, b)
  {
    if |s| > 0 {
      CountBelowSort(s[..|s| - 1], b);
      CountBelowInsert(Sort(s[..|s| - 1]), s[|s| - 1], b);
    }
  }

  /** In a sorted list, entry k is below b exactly when more than k entries are. */
  lemma {:induction false} SortedEntry(s: seq<nat>, k: nat, b: nat)
    requires Sorted(s) && k < |s|
    ensures s[k] < b <==> CountBelow(s, b) > k
  {
    var l := |s| - 1;
    if s[l] < b {
      CountBelowAll(s, b);
    } else if k < l {
      SortedEntry(s[..l], k, b);
    } else {
      CountBelowSize(s[..l], b);
    }
  }

  lemma {:induction false} CountBelowSize(s: seq<nat>, b: nat)
    ensures CountBelow(s, b) <= |s|
  {
    if |s| > 0 {
      CountBelowSize(s[..|s| - 1], b);
    }
  }
}
