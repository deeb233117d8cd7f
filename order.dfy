/**
 * The column pre-ordering `order_simple` (src/lib.rs:7-26): every column is
 * queued with score "number of entries minus one", the queue is popped once
 * per column to give `new2orig`, and `orig2new` is its inverse.
 *
 * The reference order `SimpleOrder` lists the columns bucket by bucket, each
 * bucket holding the columns of one length in ascending index. The lemmas show
 * it is a permutation sorted by (length, index), and the only one; the method
 * is proved to produce it.
 *
 * The closure `get_col` of the Rust code becomes the sequence `cols`: only the
 * length of each column is ever used.
 */
module Ordering {
  import opened Options
  import opened ColsQueues

  /** A column permutation, both ways round. */
  datatype Perm = Perm(orig2new: seq<nat>, new2orig: seq<nat>)

  /** What the routine needs of its input: `size` columns, each with between 1 and `size` entries. */
  predicate WellSized(size: nat, cols: seq<seq<nat>>)
  {
    |cols| == size && forall c :: 0 <= c < size ==> 1 <= |cols[c]| <= size
  }

  /** The columns below `c` that have exactly `s + 1` entries, in ascending order. */
  function ScoreBucket(cols: seq<seq<nat>>, s: nat, c: nat): seq<nat>
    requires c <= |cols|
  {
    if c == 0 then []
    else ScoreBucket(cols, s, c - 1) + (if |cols[c - 1]| == s + 1 then [c - 1] else [])
  }

  /** The bucket of score `s` holds exactly the columns below `c` of length `s + 1`, in ascending index. */
  lemma {:induction false} ScoreBucketContents(cols: seq<seq<nat>>, s: nat, c: nat)
    requires c <= |cols|
    ensures forall i :: 0 <= i < |ScoreBucket(cols, s, c)| ==>
              ScoreBucket(cols, s, c)[i] < c && |cols[ScoreBucket(cols, s, c)[i]]| == s + 1
    ensures forall i, j :: 0 <= i < j < |ScoreBucket(cols, s, c)| ==>
              ScoreBucket(cols, s, c)[i] < ScoreBucket(cols, s, c)[j]
    ensures forall x :: 0 <= x < c && |cols[x]| == s + 1 ==> x in ScoreBucket(cols, s, c)
  {
    if c > 0 {
      ScoreBucketContents(cols, s, c - 1);
      var r0 := ScoreBucket(cols, s, c - 1);
      var tail: seq<nat> := if |cols[c - 1]| == s + 1 then [c - 1] else [];
      var r := ScoreBucket(cols, s, c);
      assert r == r0 + tail;
      forall i | 0 <= i < |r|
        ensures r[i] < c && |cols[r[i]]| == s + 1
      {
        if i < |r0| {
          assert r[i] == r0[i];
        } else {
          assert r[i] == tail[0] == c - 1;
        }
      }
      forall i, j | 0 <= i < j < |r|
        ensures r[i] < r[j]
      {
        assert r[i] == r0[i];
        if j < |r0| {
          assert r[j] == r0[j];
        } else {
          assert r[j] == tail[0] == c - 1;
        }
      }
      forall x | 0 <= x < c && |cols[x]| == s + 1
        ensures x in r
      {
        if x < c - 1 {
          var k :| 0 <= k < |r0| && r0[k] == x;
          assert r[k] == x;
        } else {
          assert r[|r| - 1] == x;
        }
      }
    }
  }

  /** One bucket per score in [0, |cols|), holding the columns below `c`. */
  function ScoreBuckets(cols: seq<seq<nat>>, c: nat): seq<seq<nat>>
    requires c <= |cols|
  {
    seq(|cols|, s requires 0 <= s < |cols| => ScoreBucket(cols, s, c))
  }

  /** The reference order: shorter columns first, equal lengths by ascending index. */
  function SimpleOrder(cols: seq<seq<nat>>): seq<nat>
  {
    Flatten(ScoreBuckets(cols, |cols|))
  }

  /** Column `x` is to come before column `y`. */
  predicate Before(cols: seq<seq<nat>>, x: nat, y: nat)
    requires x < |cols| && y < |cols|
  {
    |cols[x]| < |cols[y]| || (|cols[x]| == |cols[y]| && x < y)
  }

  /** `o` names columns of `cols` only, each strictly before all that follow it. */
  predicate DensityOrdered(cols: seq<seq<nat>>, o: seq<nat>)
  {
    (forall i :: 0 <= i < |o| ==> o[i] < |cols|) &&
    forall i, j :: 0 <= i < j < |o| ==> Before(cols, o[i], o[j])
  }

  /** `o` lists each of 0, ..., n - 1 exactly once. */
  predicate IsPermutation(o: seq<nat>, n: nat)
  {
    |o| == n &&
    (forall i :: 0 <= i < |o| ==> o[i] < n) &&
    (forall x :: 0 <= x < n ==> x in o) &&
    (forall i, j :: 0 <= i < j < |o| ==> o[i] != o[j])
  }

  /** Queuing column `c` appends it to the bucket of its score and changes no other bucket. */
  lemma ScoreBucketsStep(cols: seq<seq<nat>>, c: nat)
    requires c < |cols| && 1 <= |cols[c]| <= |cols|
    ensures ScoreBuckets(cols, c + 1) ==
            ScoreBuckets(cols, c)[|cols[c]| - 1 := ScoreBuckets(cols, c)[|cols[c]| - 1] + [c]]
  {
    var k := |cols[c]| - 1;
    var bs, bs' := ScoreBuckets(cols, c), ScoreBuckets(cols, c + 1);
    forall s | 0 <= s < |cols|
      ensures bs'[s] == bs[k := bs[k] + [c]][s]
    {
      assert bs'[s] == ScoreBucket(cols, s, c + 1);
    }
  }

  /** Every one of the first `c` columns lands in exactly one bucket. */
  lemma {:induction false} ScoreBucketsLength(cols: seq<seq<nat>>, c: nat)
    requires WellSized(|cols|, cols) && c <= |cols|
    ensures |Flatten(ScoreBuckets(cols, c))| == c
  {
    if c == 0 {
      FlattenEmpty(ScoreBuckets(cols, 0));
    } else {
      ScoreBucketsLength(cols, c - 1);
      ScoreBucketsStep(cols, c - 1);
      var k := |cols[c - 1]| - 1;
      FlattenUpdate(ScoreBuckets(cols, c - 1), k, ScoreBuckets(cols, c - 1)[k] + [c - 1]);
    }
  }

  /**
   * Buckets whose `s`-th one holds columns of length `base + s + 1` in ascending
   * index read out in (length, index) order, none shorter than `base + 1`.
   */
  lemma {:induction false} FlattenOrdered(cols: seq<seq<nat>>, bs: seq<seq<nat>>, base: nat)
    requires forall s, i :: 0 <= s < |bs| && 0 <= i < |bs[s]| ==>
               bs[s][i] < |cols| && |cols[bs[s][i]]| == base + s + 1
    requires forall s, i, j :: 0 <= s < |bs| && 0 <= i < j < |bs[s]| ==> bs[s][i] < bs[s][j]
    ensures DensityOrdered(cols, Flatten(bs))
    ensures forall k :: 0 <= k < |Flatten(bs)| ==> |cols[Flatten(bs)[k]]| >= base + 1
  {
    if bs != [] {
      var rest := bs[1..];
      forall s, i | 0 <= s < |rest| && 0 <= i < |rest[s]|
        ensures rest[s][i] < |cols| && |cols[rest[s][i]]| == base + 1 + s + 1
      {
        assert rest[s] == bs[s + 1];
      }
      forall s, i, j | 0 <= s < |rest| && 0 <= i < j < |rest[s]|
        ensures rest[s][i] < rest[s][j]
      {
        assert rest[s] == bs[s + 1];
      }
      FlattenOrdered(cols, rest, base + 1);
      var f, r := bs[0], Flatten(rest);
      assert Flatten(bs) == f + r;
      forall i | 0 <= i < |f + r|
        ensures (f + r)[i] < |cols| && |cols[(f + r)[i]]| >= base + 1
      {
        if i >= |f| {
          assert (f + r)[i] == r[i - |f|];
        }
      }
      forall i, j | 0 <= i < j < |f + r|
        ensures Before(cols, (f + r)[i], (f + r)[j])
      {
        if j < |f| {
        } else if i < |f| {
          assert (f + r)[j] == r[j - |f|];
        } else {
          assert (f + r)[i] == r[i - |f|] && (f + r)[j] == r[j - |f|];
        }
      }
    }
  }

  /** The reference order names exactly the columns 0, ..., |cols| - 1. */
  lemma SimpleOrderMembers(cols: seq<seq<nat>>, x: nat)
    requires WellSized(|cols|, cols)
    ensures x in SimpleOrder(cols) <==> x < |cols|
  {
    var bs := ScoreBuckets(cols, |cols|);
    FlattenMembers(bs, x);
    if x < |cols| {
      ScoreBucketContents(cols, |cols[x]| - 1, |cols|);
      assert x in bs[|cols[x]| - 1];
    }
    if x in SimpleOrder(cols) {
      var s :| 0 <= s < |bs| && x in bs[s];
      ScoreBucketContents(cols, s, |cols|);
      var i :| 0 <= i < |bs[s]| && bs[s][i] == x;
    }
  }

  /** The reference order is a permutation of the columns, sorted by (length, index). */
  lemma SimpleOrderSorted(cols: seq<seq<nat>>)
    requires WellSized(|cols|, cols)
    ensures IsPermutation(SimpleOrder(cols), |cols|)
    ensures DensityOrdered(cols, SimpleOrder(cols))
  {
    var o := SimpleOrder(cols);
    var bs := ScoreBuckets(cols, |cols|);
    forall s | 0 <= s < |bs|
      ensures forall i :: 0 <= i < |bs[s]| ==> bs[s][i] < |cols| && |cols[bs[s][i]]| == 0 + s + 1
      ensures forall i, j :: 0 <= i < j < |bs[s]| ==> bs[s][i] < bs[s][j]
    {
      ScoreBucketContents(cols, s, |cols|);
    }
    FlattenOrdered(cols, bs, 0);
    ScoreBucketsLength(cols, |cols|);
    forall x | 0 <= x < |cols|
      ensures x in o
    {
      SimpleOrderMembers(cols, x);
    }
    forall i, j | 0 <= i < j < |o|
      ensures o[i] != o[j]
    {
      assert Before(cols, o[i], o[j]);
    }
  }

  /** Two sequences sorted by (length, index) that hold the same columns are equal. */
  lemma {:induction false} SortedUnique(cols: seq<seq<nat>>, a: seq<nat>, b: seq<nat>)
    requires DensityOrdered(cols, a) && DensityOrdered(cols, b)
    requires forall x :: x in a <==> x in b
    ensures a == b
  {
    if b != [] {
      assert b[0] in b;
    }
    if a != [] {
      assert a[0] in b;
      assert b != [] && b[0] in a;
      var m :| 0 <= m < |a| && a[m] == b[0];
      var k :| 0 <= k < |b| && b[k] == a[0];
      assert m == 0 || k == 0;
      forall x
        ensures x in a[1..] <==> x in b[1..]
      {
        if x in a[1..] {
          var i :| 1 <= i < |a| && a[i] == x;
          assert Before(cols, a[0], a[i]);
          assert x in b && x != b[0];
          var j :| 0 <= j < |b| && b[j] == x;
          assert j != 0 && b[1..][j - 1] == x;
        }
        if x in b[1..] {
          var j :| 1 <= j < |b| && b[j] == x;
          assert Before(cols, b[0], b[j]);
          assert x in a && x != a[0];
          var i :| 0 <= i < |a| && a[i] == x;
          assert i != 0 && a[1..][i - 1] == x;
        }
      }
      forall i, j | 0 <= i < j < |a| - 1
        ensures Before(cols, a[1..][i], a[1..][j])
      {
        assert Before(cols, a[i + 1], a[j + 1]);
      }
      forall i, j | 0 <= i < j < |b| - 1
        ensures Before(cols, b[1..][i], b[1..][j])
      {
        assert Before(cols, b[i + 1], b[j + 1]);
      }
      SortedUnique(cols, a[1..], b[1..]);
      assert a == [a[0]] + a[1..] && b == [b[0]] + b[1..];
    }
  }

  /**
   * The reference order is the one and only permutation of the columns sorted
   * by (length, index).
   */
  lemma SimpleOrderCharacterized(cols: seq<seq<nat>>, o: seq<nat>)
    requires WellSized(|cols|, cols)
    ensures IsPermutation(o, |cols|) && DensityOrdered(cols, o) <==> o == SimpleOrder(cols)
  {
    SimpleOrderSorted(cols);
    if IsPermutation(o, |cols|) && DensityOrdered(cols, o) {
      forall x
        ensures x in o <==> x in SimpleOrder(cols)
      {
        SimpleOrderMembers(cols, x);
      }
      SortedUnique(cols, o, SimpleOrder(cols));
    }
  }

  /**
   * Orders the `size` columns `cols` by their number of entries, ties broken
   * by ascending index, and returns the permutation both ways round.
   */
  method OrderSimple(size: nat, cols: seq<seq<nat>>) returns (p: Perm)
    requires WellSized(size, cols)
    ensures p.new2orig == SimpleOrder(cols)
    ensures IsPermutation(p.new2orig, size) && DensityOrdered(cols, p.new2orig)
    ensures |p.orig2new| == size
    ensures forall i :: 0 <= i < size ==> p.orig2new[p.new2orig[i]] == i
    ensures forall c :: 0 <= c < size ==> p.orig2new[c] < size && p.new2orig[p.orig2new[c]] == c
  {
    var q := QueueColumns(size, cols);
    SimpleOrderSorted(cols);
    var new2orig := PopAll(q, size, SimpleOrder(cols));
    var orig2new := Invert(new2orig);
    p := Perm(orig2new, new2orig);
  }

  /** Queues every column with score "number of entries minus one". */
  method QueueColumns(size: nat, cols: seq<seq<nat>>) returns (q: ColsQueue)
    requires WellSized(size, cols)
    ensures fresh(q) && fresh(q.score2head) && fresh(q.prev) && fresh(q.next)
    ensures q.Valid() && q.numCols == size
    ensures q.Contents() == SimpleOrder(cols)
  {
    q := new ColsQueue(size);
    for c := 0 to size
      invariant fresh(q) && fresh(q.score2head) && fresh(q.prev) && fresh(q.next)
      invariant q.Valid() && q.numCols == size
      invariant q.buckets == ScoreBuckets(cols, c)
      invariant forall x :: x in q.scoreOf ==> x < c
    {
      q.Add(c, |cols[c]| - 1);
      ScoreBucketsStep(cols, c);
    }
  }

  /** Pops the queue `size` times; none of the pops finds it empty, and the queue is left drained. */
  method PopAll(q: ColsQueue, size: nat, ghost order: seq<nat>) returns (new2orig: seq<nat>)
    requires q.Valid() && q.Contents() == order && |order| == size
    modifies q, q.score2head, q.prev, q.next
    ensures new2orig == order
    ensures q.Valid() && q.Contents() == [] && q.len == 0
  {
    new2orig := [];
    while |new2orig| < size
      invariant q.Valid()
      invariant new2orig + q.Contents() == order
      decreases size - |new2orig|
    {
      ghost var rest := q.Contents();
      ConsumeHead(new2orig, rest, order, size);
      var min := q.PopMin();
      new2orig := new2orig + [min.value];
    }
  }

  /** Moving the head of the rest onto the prefix keeps their concatenation. */
  lemma ConsumeHead(prefix: seq<nat>, rest: seq<nat>, order: seq<nat>, size: nat)
    requires prefix + rest == order && |order| == size && |prefix| < size
    ensures rest != [] && (prefix + [rest[0]]) + rest[1..] == order
  {
  }

  /** The inverse of a permutation of 0, ..., |new2orig| - 1. */
  method Invert(new2orig: seq<nat>) returns (orig2new: seq<nat>)
    requires IsPermutation(new2orig, |new2orig|)
    ensures |orig2new| == |new2orig|
    ensures forall i :: 0 <= i < |new2orig| ==> orig2new[new2orig[i]] == i
    ensures forall c :: 0 <= c < |new2orig| ==> orig2new[c] < |new2orig| && new2orig[orig2new[c]] == c
  {
    var size := |new2orig|;
    var a := new nat[size](_ => 0);
    for i := 0 to size
      invariant forall j :: 0 <= j < i ==> a[new2orig[j]] == j
    {
      a[new2orig[i]] := i;
    }
    forall c | 0 <= c < size
      ensures a[c] < size && new2orig[a[c]] == c
    {
      assert c in new2orig;
      var j :| 0 <= j < size && new2orig[j] == c;
    }
    orig2new := a[..];
  }

  /**
   * The columns 0, 1, 2 and 4 of the four-row matrix in microlp's own test
   * have 4, 1, 2 and 3 entries: they meet the routine's precondition, so the
   * test runs without a panic, and they are ordered 1, 2, 3, 0.
   */
  lemma SourceTestOrder()
    ensures WellSized(4, [[0, 1, 2, 3], [2], [0, 1], [1, 2, 3]])
    ensures SimpleOrder([[0, 1, 2, 3], [2], [0, 1], [1, 2, 3]]) == [1, 2, 3, 0]
  {
    var cols: seq<seq<nat>> := [[0, 1, 2, 3], [2], [0, 1], [1, 2, 3]];
    var o: seq<nat> := [1, 2, 3, 0];
    assert o[0] == 1 && o[1] == 2 && o[2] == 3 && o[3] == 0;
    SimpleOrderCharacterized(cols, o);
  }

  /** Columns of equal length come out in ascending index: first in, first out. */
  lemma TiesInIndexOrder()
    ensures SimpleOrder([[0, 1], [2], [1, 3], [0]]) == [1, 3, 0, 2]
  {
    var cols: seq<seq<nat>> := [[0, 1], [2], [1, 3], [0]];
    var o: seq<nat> := [1, 3, 0, 2];
    assert o[0] == 1 && o[1] == 3 && o[2] == 0 && o[3] == 2;
    SimpleOrderCharacterized(cols, o);
  }
}
