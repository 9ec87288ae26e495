/**
 Sequence operations behind the script's list comprehensions and its
 two-bucket loops: filtering, subsequences, stable partition and flattening.
 */
module Seqs {

  /** `[x for x in s if p(x)]` */
  function Filter<T>(p: T -> bool, s: seq<T>): (r: seq<T>)
    ensures |r| <= |s|
    ensures forall i :: 0 <= i < |r| ==> p(r[i])
    ensures forall i :: 0 <= i < |r| ==> r[i] in s
    ensures forall i :: 0 <= i < |s| && p(s[i]) ==> s[i] in r
    decreases |s|
  {
    if s == [] then [] else (if p(s[0]) then [s[0]] else []) + Filter(p, s[1..])
  }

  /** The complement of a predicate. */
  function Not<T>(p: T -> bool): T -> bool {
    x => !p(x)
  }

  /** `a` is `b` with some elements left out and the rest kept in their order. */
  predicate IsSubseq<T(==)>(a: seq<T>, b: seq<T>)
    decreases |b|
  {
    a == [] || (b != [] && ((a[0] == b[0] && IsSubseq(a[1..], b[1..])) || IsSubseq(a, b[1..])))
  }

  lemma {:induction false} SubseqReflexive<T>(s: seq<T>)
    ensures IsSubseq(s, s)
    decreases |s|
  {
    if s != [] {
      SubseqReflexive(s[1..]);
    }
  }

  lemma {:induction false} SubseqTransitive<T>(a: seq<T>, b: seq<T>, c: seq<T>)
    requires IsSubseq(a, b) && IsSubseq(b, c)
    ensures IsSubseq(a, c)
    decreases |c|
  {
    if a != [] {
      if IsSubseq(b, c[1..]) {
        SubseqTransitive(a, b, c[1..]);
      } else if a[0] == b[0] && IsSubseq(a[1..], b[1..]) {
        SubseqTransitive(a[1..], b[1..], c[1..]);
      } else {
        SubseqTransitive(a, b[1..], c[1..]);
      }
    }
  }

  /** A subsequence takes each element at most as often as the original has it. */
  lemma {:induction false} SubseqMultiset<T>(a: seq<T>, b: seq<T>)
    requires IsSubseq(a, b)
    ensures multiset(a) <= multiset(b)
    decreases |b|
  {
    if a != [] {
      assert b == [b[0]] + b[1..];
      if a[0] == b[0] && IsSubseq(a[1..], b[1..]) {
        SubseqMultiset(a[1..], b[1..]);
        assert a == [a[0]] + a[1..];
      } else {
        SubseqMultiset(a, b[1..]);
      }
    }
  }

  /** Filtering keeps the survivors in their original order. */
  lemma {:induction false} FilterIsSubseq<T>(p: T -> bool, s: seq<T>)
    ensures IsSubseq(Filter(p, s), s)
    decreases |s|
  {
    if s != [] {
      FilterIsSubseq(p, s[1..]);
      var f := Filter(p, s);
      if p(s[0]) {
        assert f == [s[0]] + Filter(p, s[1..]);
        assert f[0] == s[0] && f[1..] == Filter(p, s[1..]);
      } else {
        assert f == Filter(p, s[1..]);
      }
    }
  }

  /** Filtering a concatenation filters each part. */
  lemma {:induction false} FilterAppend<T>(p: T -> bool, a: seq<T>, b: seq<T>)
    ensures Filter(p, a + b) == Filter(p, a) + Filter(p, b)
    decreases |a|
  {
    if a != [] {
      assert (a + b)[1..] == a[1..] + b;
      FilterAppend(p, a[1..], b);
    } else {
      assert a + b == b;
    }
  }

  /** Each element occurs in the filtered sequence as often as in the input when it passes, and never otherwise. */
  lemma {:induction false} FilterCount<T>(p: T -> bool, s: seq<T>, x: T)
    ensures multiset(Filter(p, s))[x] == if p(x) then multiset(s)[x] else 0
    decreases |s|
  {
    if s != [] {
      FilterCount(p, s[1..], x);
      assert multiset(s) == multiset{s[0]} + multiset(s[1..]) by {
        assert s == [s[0]] + s[1..];
      }
      if p(s[0]) {
        assert Filter(p, s) == [s[0]] + Filter(p, s[1..]);
        assert multiset(Filter(p, s)) == multiset{s[0]} + multiset(Filter(p, s[1..]));
      } else {
        assert Filter(p, s) == Filter(p, s[1..]);
      }
    }
  }

  /** `FilterCount` for every element at once. */
  lemma FilterCounts<T>(p: T -> bool, s: seq<T>)
    ensures forall x :: multiset(Filter(p, s))[x] == if p(x) then multiset(s)[x] else 0
  {
    forall x
      ensures multiset(Filter(p, s))[x] == if p(x) then multiset(s)[x] else 0
    {
      FilterCount(p, s, x);
    }
  }

  /** The elements that pass and the elements that fail make up the whole, counted with multiplicity. */
  lemma FilterPartition<T>(p: T -> bool, s: seq<T>)
    ensures multiset(Filter(p, s)) + multiset(Filter(Not(p), s)) == multiset(s)
  {
    forall x
      ensures (multiset(Filter(p, s)) + multiset(Filter(Not(p), s)))[x] == multiset(s)[x]
    {
      FilterCount(p, s, x);
      FilterCount(Not(p), s, x);
    }
  }

  /** Filtering a sequence whose elements all pass returns it unchanged. */
  lemma {:induction false} FilterKeepsAll<T>(p: T -> bool, s: seq<T>)
    requires forall i :: 0 <= i < |s| ==> p(s[i])
    ensures Filter(p, s) == s
    decreases |s|
  {
    if s != [] {
      FilterKeepsAll(p, s[1..]);
    }
  }

  /** Filters by predicates that agree on every element are equal. */
  lemma {:induction false} FilterCongruent<T>(p: T -> bool, q: T -> bool, s: seq<T>)
    requires forall i :: 0 <= i < |s| ==> p(s[i]) == q(s[i])
    ensures Filter(p, s) == Filter(q, s)
    decreases |s|
  {
    if s != [] {
      FilterCongruent(p, q, s[1..]);
    }
  }

  /** A filter keeps nothing when no element passes. */
  lemma {:induction false} NoneSurvive<T>(p: T -> bool, s: seq<T>)
    requires forall i :: 0 <= i < |s| ==> !p(s[i])
    ensures Filter(p, s) == []
    decreases |s|
  {
    if s != [] {
      NoneSurvive(p, s[1..]);
    }
  }

  /** Filtering a single element keeps it exactly when it passes. */
  lemma FilterSingle<T>(p: T -> bool, x: T)
    ensures Filter(p, [x]) == if p(x) then [x] else []
  {
    assert [x][1..] == [];
  }

  /** Filtering by `p` and then by `q` is filtering once by a test that holds where both do. */
  lemma {:induction false} FilterTwice<T>(p: T -> bool, q: T -> bool, r: T -> bool, s: seq<T>)
    requires forall i :: 0 <= i < |s| ==> r(s[i]) == (p(s[i]) && q(s[i]))
    ensures Filter(q, Filter(p, s)) == Filter(r, s)
    decreases |s|
  {
    if s != [] {
      var head := if p(s[0]) then [s[0]] else [];
      FilterTwice(p, q, r, s[1..]);
      FilterAppend(q, head, Filter(p, s[1..]));
      FilterSingle(q, s[0]);
    }
  }

  /** Filtering a prefix extended by one element: the loop step of every two-bucket loop. */
  lemma FilterSnoc<T>(p: T -> bool, s: seq<T>, i: nat)
    requires i < |s|
    ensures Filter(p, s[..i + 1]) == Filter(p, s[..i]) + (if p(s[i]) then [s[i]] else [])
  {
    assert s[..i + 1] == s[..i] + [s[i]];
    FilterAppend(p, s[..i], [s[i]]);
    assert [s[i]][1..] == [];
  }

  /** The step of a loop that appends each element that passes to a bucket. */
  lemma FilterStep<T>(p: T -> bool, s: seq<T>, i: nat, bucket: seq<T>, hit: bool)
    requires i < |s| && hit == p(s[i]) && bucket == Filter(p, s[..i])
    ensures (if hit then bucket + [s[i]] else bucket) == Filter(p, s[..i + 1])
  {
    FilterSnoc(p, s, i);
  }

  /** The step of a loop that sends each element to one of two buckets. */
  lemma PartitionStep<T>(p: T -> bool, s: seq<T>, i: nat, yes: seq<T>, no: seq<T>, hit: bool)
    requires i < |s| && hit == p(s[i]) && yes == Filter(p, s[..i]) && no == Filter(Not(p), s[..i])
    ensures (if hit then yes + [s[i]] else yes) == Filter(p, s[..i + 1])
    ensures (if hit then no else no + [s[i]]) == Filter(Not(p), s[..i + 1])
  {
    FilterSnoc(p, s, i);
    FilterSnoc(Not(p), s, i);
  }

  /** Filters by two predicates can be applied in either order. */
  lemma {:induction false} FilterCommute<T>(p: T -> bool, q: T -> bool, s: seq<T>)
    ensures Filter(p, Filter(q, s)) == Filter(q, Filter(p, s))
    decreases |s|
  {
    if s != [] {
      FilterCommute(p, q, s[1..]);
      var head := if q(s[0]) then [s[0]] else [];
      FilterAppend(p, head, Filter(q, s[1..]));
      var head' := if p(s[0]) then [s[0]] else [];
      FilterAppend(q, head', Filter(p, s[1..]));
      assert [s[0]][1..] == [];
    }
  }

  /** Filtering twice by the same predicate is filtering once. */
  lemma FilterIdempotent<T>(p: T -> bool, s: seq<T>)
    ensures Filter(p, Filter(p, s)) == Filter(p, s)
  {
    FilterKeepsAll(p, Filter(p, s));
  }

  /**
   `bumped + notBumped` for a predicate: the elements that satisfy it, then the
   others, each group in its original order.
   */
  function StablePartition<T>(p: T -> bool, s: seq<T>): seq<T> {
    Filter(p, s) + Filter(Not(p), s)
  }

  /** How many elements of `s` satisfy `p`. */
  function CountIf<T>(p: T -> bool, s: seq<T>): nat {
    |Filter(p, s)|
  }

  /**
   The stable partition is a permutation of its input; its first `CountIf`
   elements are the ones that satisfy the predicate, and both groups keep the
   input order.
   */
  lemma StablePartitionSpec<T>(p: T -> bool, s: seq<T>)
    ensures var r, k := StablePartition(p, s), CountIf(p, s);
      && |r| == |s|
      && multiset(r) == multiset(s)
      && (forall i :: 0 <= i < k ==> p(r[i]))
      && (forall i :: k <= i < |r| ==> !p(r[i]))
      && IsSubseq(r[..k], s)
      && IsSubseq(r[k..], s)
  {
    var r, k := StablePartition(p, s), CountIf(p, s);
    FilterPartition(p, s);
    assert multiset(r) == multiset(Filter(p, s)) + multiset(Filter(Not(p), s));
    assert |r| == |multiset(r)| == |multiset(s)| == |s|;
    assert r[..k] == Filter(p, s);
    assert r[k..] == Filter(Not(p), s);
    forall i | k <= i < |r|
      ensures !p(r[i])
    {
      assert Not(p)(r[k..][i - k]);
    }
    FilterIsSubseq(p, s);
    FilterIsSubseq(Not(p), s);
  }

  /** Filtering a stable partition is stably partitioning the filtered sequence. */
  lemma FilterStablePartition<T>(p: T -> bool, q: T -> bool, s: seq<T>)
    ensures Filter(p, StablePartition(q, s)) == StablePartition(q, Filter(p, s))
  {
    FilterAppend(p, Filter(q, s), Filter(Not(q), s));
    FilterCommute(p, q, s);
    FilterCommute(p, Not(q), s);
  }

  /** In a stable partition no element that fails the predicate comes before one that satisfies it. */
  lemma StablePartitionOrdered<T>(p: T -> bool, s: seq<T>)
    ensures var r := StablePartition(p, s);
      forall i, j :: 0 <= i < j < |r| && p(r[j]) ==> p(r[i])
  {
    StablePartitionSpec(p, s);
  }

  /** `[item for sublist in chunks for item in sublist]` */
  function Flatten<T>(chunks: seq<seq<T>>): (r: seq<T>)
    decreases |chunks|
  {
    if chunks == [] then [] else chunks[0] + Flatten(chunks[1..])
  }

  /** Flattening a single chunk gives that chunk. */
  lemma FlattenSingle<T>(c: seq<T>)
    ensures Flatten([c]) == c
  {
    assert [c][1..] == [];
  }

  /** Flattening a concatenation of chunk lists concatenates the flattened parts. */
  lemma {:induction false} FlattenAppend<T>(a: seq<seq<T>>, b: seq<seq<T>>)
    ensures Flatten(a + b) == Flatten(a) + Flatten(b)
    decreases |a|
  {
    if a != [] {
      assert (a + b)[1..] == a[1..] + b;
      FlattenAppend(a[1..], b);
    } else {
      assert a + b == b;
    }
  }

  /** An element of the flattened list is an element of one of the chunks, and conversely. */
  lemma {:induction false} FlattenMember<T>(chunks: seq<seq<T>>, x: T)
    ensures x in Flatten(chunks) <==> exists i :: 0 <= i < |chunks| && x in chunks[i]
    decreases |chunks|
  {
    if chunks != [] {
      FlattenMember(chunks[1..], x);
      if exists i :: 0 <= i < |chunks| && x in chunks[i] {
        var i :| 0 <= i < |chunks| && x in chunks[i];
        if i > 0 {
          assert x in chunks[1..][i - 1];
        }
      }
      if exists i :: 0 <= i < |chunks| - 1 && x in chunks[1..][i] {
        var i :| 0 <= i < |chunks| - 1 && x in chunks[1..][i];
        assert x in chunks[i + 1];
      }
    }
  }

  /** The flattened list is exactly as long as all chunks together. */
  lemma {:induction false} FlattenLength<T>(chunks: seq<seq<T>>)
    ensures |Flatten(chunks)| == TotalLength(chunks)
    decreases |chunks|
  {
    if chunks != [] {
      FlattenLength(chunks[1..]);
    }
  }

  function TotalLength<T>(chunks: seq<seq<T>>): nat
    decreases |chunks|
  {
    if chunks == [] then 0 else |chunks[0]| + TotalLength(chunks[1..])
  }
}
