/**
 * The bucket priority queue of columns (`ColsQueue`, src/lib.rs). Scores lie in
 * [0, numCols); for each score, `score2head` holds the head of a circular
 * doubly-linked ring of the columns with that score, threaded through the
 * index arrays `prev` and `next`. `minScore` is a lower bound on the scores
 * present that only moves forward while popping, and `len` counts the columns
 * present.
 *
 * The abstract view is the ghost sequence `buckets`: `buckets[s]` lists the
 * ring of score `s` starting from its head. Read bucket after bucket it gives
 * `Contents()`, the order in which the columns will be popped.
 */
module ColsQueues {
  import opened Options
  import opened Rings

  /** The buckets read one after another, lowest score first. */
  function Flatten(bs: seq<seq<nat>>): seq<nat>
  {
    if bs == [] then [] else bs[0] + Flatten(bs[1..])
  }

  /** Replacing one bucket changes the flattened length by the change in that bucket's length. */
  lemma {:induction false} FlattenUpdate(bs: seq<seq<nat>>, k: nat, b': seq<nat>)
    requires k < |bs|
    ensures |Flatten(bs[k := b'])| + |bs[k]| == |Flatten(bs)| + |b'|
  {
    if k != 0 {
      FlattenUpdate(bs[1..], k - 1, b');
      assert bs[k := b'][1..] == bs[1..][k - 1 := b'];
    } else {
      assert bs[k := b'][1..] == bs[1..];
    }
  }

  /** A column is in the flattened sequence exactly when it is in one of the buckets. */
  lemma {:induction false} FlattenMembers(bs: seq<seq<nat>>, x: nat)
    ensures x in Flatten(bs) <==> exists s :: 0 <= s < |bs| && x in bs[s]
  {
    if bs != [] {
      FlattenMembers(bs[1..], x);
      if x in Flatten(bs[1..]) {
        var s :| 0 <= s < |bs| - 1 && x in bs[1..][s];
        assert x in bs[s + 1];
      }
      if exists s :: 0 <= s < |bs| && x in bs[s] {
        var s :| 0 <= s < |bs| && x in bs[s];
        if s > 0 {
          assert x in bs[1..][s - 1];
        }
      }
    }
  }

  /** The flattened sequence is empty exactly when every bucket is. */
  lemma {:induction false} FlattenEmpty(bs: seq<seq<nat>>)
    ensures Flatten(bs) == [] <==> forall s :: 0 <= s < |bs| ==> bs[s] == []
  {
    if bs != [] {
      FlattenEmpty(bs[1..]);
      assert forall s :: 1 <= s < |bs| ==> bs[s] == bs[1..][s - 1];
    }
  }

  /**
   * When every bucket below `s` is empty and bucket `s` is not, the flattened
   * sequence starts with the head of bucket `s`, followed by what remains once
   * that head is taken off.
   */
  lemma {:induction false} FlattenPopFront(bs: seq<seq<nat>>, s: nat)
    requires s < |bs| && bs[s] != []
    requires forall t :: 0 <= t < s ==> bs[t] == []
    ensures Flatten(bs) == [bs[s][0]] + Flatten(bs[s := bs[s][1..]])
  {
    if s == 0 {
      assert bs[s := bs[s][1..]][1..] == bs[1..];
    } else {
      FlattenPopFront(bs[1..], s - 1);
      assert bs[s := bs[s][1..]][1..] == bs[1..][s - 1 := bs[s][1..]];
    }
  }

  function HeadOf(b: seq<nat>): Option<nat>
  {
    if b == [] then None else Some(b[0])
  }

  function Min(a: nat, b: nat): nat
  {
    if a <= b then a else b
  }

  /** Array sizes agree and the cursor is at most the number of scores. */
  ghost predicate Shape(heads: seq<Option<nat>>, next: seq<nat>, prev: seq<nat>,
                        minScore: nat, buckets: seq<seq<nat>>)
  {
    |next| == |heads| && |prev| == |heads| && |buckets| == |heads| && minScore <= |heads|
  }

  /** Bucket `s` starts at its recorded head and is a ring of distinct columns. */
  ghost predicate BucketOk(heads: seq<Option<nat>>, next: seq<nat>, prev: seq<nat>, buckets: seq<seq<nat>>, s: nat)
    requires s < |heads| && s < |buckets|
  {
    heads[s] == HeadOf(buckets[s]) && IsRing(buckets[s], next, prev) && Distinct(buckets[s])
  }

  /** Every bucket's head is the head of its ring, and each ring is well linked. */
  ghost predicate Linked(heads: seq<Option<nat>>, next: seq<nat>, prev: seq<nat>, buckets: seq<seq<nat>>)
    requires |buckets| == |heads|
  {
    forall s {:trigger BucketOk(heads, next, prev, buckets, s)} :: 0 <= s < |heads| ==>
      BucketOk(heads, next, prev, buckets, s)
  }

  /** The column at position `i` of bucket `s` is present with score `s`. */
  ghost predicate OwnerOk(buckets: seq<seq<nat>>, scoreOf: map<nat, nat>, s: nat, i: nat)
    requires s < |buckets| && i < |buckets[s]|
  {
    buckets[s][i] in scoreOf && scoreOf[buckets[s][i]] == s
  }

  /** The present column `c` is on the ring of its score. */
  ghost predicate Placed(buckets: seq<seq<nat>>, scoreOf: map<nat, nat>, c: nat)
    requires c in scoreOf
  {
    scoreOf[c] < |buckets| && c in buckets[scoreOf[c]]
  }

  /** Each present column is on the ring of exactly the score it was added with. */
  ghost predicate Owned(buckets: seq<seq<nat>>, scoreOf: map<nat, nat>)
  {
    (forall s, i {:trigger OwnerOk(buckets, scoreOf, s, i)} :: 0 <= s < |buckets| && 0 <= i < |buckets[s]| ==>
       OwnerOk(buckets, scoreOf, s, i)) &&
    (forall c {:trigger Placed(buckets, scoreOf, c)} :: c in scoreOf ==> Placed(buckets, scoreOf, c))
  }

  /** No bucket below the cursor holds a column. */
  ghost predicate BelowMinEmpty(buckets: seq<seq<nat>>, minScore: nat)
    requires minScore <= |buckets|
  {
    forall s :: 0 <= s < minScore ==> buckets[s] == []
  }

  /** The queue invariant, over snapshots of the arrays and the ghost state. */
  ghost predicate Inv(heads: seq<Option<nat>>, next: seq<nat>, prev: seq<nat>, minScore: nat, len: nat,
                      buckets: seq<seq<nat>>, scoreOf: map<nat, nat>)
  {
    Shape(heads, next, prev, minScore, buckets) &&
    Linked(heads, next, prev, buckets) &&
    Owned(buckets, scoreOf) &&
    len == |Flatten(buckets)| &&
    BelowMinEmpty(buckets, minScore)
  }

  /** A column on a ring is present, with that ring's score. */
  lemma OwnedAt(buckets: seq<seq<nat>>, scoreOf: map<nat, nat>, s: nat, x: nat)
    requires Owned(buckets, scoreOf) && s < |buckets| && x in buckets[s]
    ensures x in scoreOf && scoreOf[x] == s
  {
    var i :| 0 <= i < |buckets[s]| && buckets[s][i] == x;
    assert OwnerOk(buckets, scoreOf, s, i);
  }

  /** A present column is on the ring of its score. */
  lemma PlacedAt(buckets: seq<seq<nat>>, scoreOf: map<nat, nat>, c: nat)
    requires Owned(buckets, scoreOf) && c in scoreOf
    ensures scoreOf[c] < |buckets| && c in buckets[scoreOf[c]]
  {
    assert Placed(buckets, scoreOf, c);
  }

  /**
   * Replacing the ring of `score` by `b'`, while rewriting only the links of
   * columns that are absent or on that ring, leaves every other ring intact.
   */
  lemma LinkedUpdate(heads: seq<Option<nat>>, next: seq<nat>, prev: seq<nat>, buckets: seq<seq<nat>>,
                     scoreOf: map<nat, nat>, score: nat, heads': seq<Option<nat>>, next': seq<nat>,
                     prev': seq<nat>, b': seq<nat>, touched: set<nat>)
    requires |buckets| == |heads| && score < |heads|
    requires Linked(heads, next, prev, buckets) && Owned(buckets, scoreOf)
    requires |heads'| == |heads| && |next'| == |next| && |prev'| == |prev|
    requires forall s :: 0 <= s < |heads| && s != score ==> heads'[s] == heads[s]
    requires heads'[score] == HeadOf(b') && IsRing(b', next', prev') && Distinct(b')
    requires forall x :: 0 <= x < |next| && x < |prev| && x !in touched ==> next'[x] == next[x] && prev'[x] == prev[x]
    requires forall x :: x in touched ==> x !in scoreOf || scoreOf[x] == score
    ensures Linked(heads', next', prev', buckets[score := b'])
  {
    var buckets' := buckets[score := b'];
    forall s | 0 <= s < |heads|
      ensures BucketOk(heads', next', prev', buckets', s)
    {
      if s != score {
        var b := buckets[s];
        assert BucketOk(heads, next, prev, buckets, s);
        forall i | 0 <= i < |b|
          ensures next'[b[i]] == next[b[i]] && prev'[b[i]] == prev[b[i]]
        {
          assert OwnerOk(buckets, scoreOf, s, i);
        }
        RingFrame(b, next, prev, next', prev');
      }
    }
  }

  /** Recording a new column with its score keeps ownership. */
  lemma AddOwned(buckets: seq<seq<nat>>, scoreOf: map<nat, nat>, col: nat, score: nat)
    requires Owned(buckets, scoreOf) && score < |buckets| && col !in scoreOf
    ensures Owned(buckets[score := buckets[score] + [col]], scoreOf[col := score])
  {
    var buckets', scoreOf' := buckets[score := buckets[score] + [col]], scoreOf[col := score];
    forall s, i | 0 <= s < |buckets'| && 0 <= i < |buckets'[s]|
      ensures OwnerOk(buckets', scoreOf', s, i)
    {
      if s != score || i < |buckets[score]| {
        assert OwnerOk(buckets, scoreOf, s, i);
        assert buckets'[s][i] == buckets[s][i];
      }
    }
    forall c | c in scoreOf'
      ensures Placed(buckets', scoreOf', c)
    {
      if c != col {
        assert Placed(buckets, scoreOf, c);
      }
    }
  }

  /** Taking a column off its ring keeps ownership of the others. */
  lemma RemoveOwned(buckets: seq<seq<nat>>, scoreOf: map<nat, nat>, col: nat, score: nat)
    requires Owned(buckets, scoreOf) && score < |buckets| && col in scoreOf && scoreOf[col] == score
    ensures Owned(buckets[score := Without(buckets[score], col)], scoreOf - {col})
  {
    var buckets', scoreOf' := buckets[score := Without(buckets[score], col)], scoreOf - {col};
    forall s, i | 0 <= s < |buckets'| && 0 <= i < |buckets'[s]|
      ensures OwnerOk(buckets', scoreOf', s, i)
    {
      var x := buckets'[s][i];
      assert x in buckets'[s];
      if s == score {
        WithoutMembers(buckets[s], col, x);
      }
      OwnedAt(buckets, scoreOf, s, x);
    }
    forall c | c in scoreOf'
      ensures Placed(buckets', scoreOf', c)
    {
      assert Placed(buckets, scoreOf, c);
      if scoreOf[c] == score {
        WithoutMembers(buckets[score], col, c);
      }
    }
  }

  /** Adding a column to an empty bucket makes it the bucket's self-linked ring. */
  lemma AddToEmptyBucket(heads: seq<Option<nat>>, next: seq<nat>, prev: seq<nat>, minScore: nat, len: nat,
                         buckets: seq<seq<nat>>, scoreOf: map<nat, nat>, col: nat, score: nat)
    requires Inv(heads, next, prev, minScore, len, buckets, scoreOf)
    requires col < |heads| && score < |heads| && col !in scoreOf && heads[score] == None
    ensures Inv(heads[score := Some(col)], next[col := col], prev[col := col], Min(minScore, score), len + 1,
                buckets[score := buckets[score] + [col]], scoreOf[col := score])
  {
    assert BucketOk(heads, next, prev, buckets, score);
    assert buckets[score] + [col] == [col];
    SingletonRing(col, next, prev);
    LinkedUpdate(heads, next, prev, buckets, scoreOf, score,
                 heads[score := Some(col)], next[col := col], prev[col := col], [col], {col});
    AddOwned(buckets, scoreOf, col, score);
    FlattenUpdate(buckets, score, [col]);
  }

  /** Adding a column to a non-empty bucket splices it in at the tail of the ring. */
  lemma AddToRing(heads: seq<Option<nat>>, next: seq<nat>, prev: seq<nat>, minScore: nat, len: nat,
                  buckets: seq<seq<nat>>, scoreOf: map<nat, nat>, col: nat, score: nat)
    requires Inv(heads, next, prev, minScore, len, buckets, scoreOf)
    requires col < |heads| && score < |heads| && col !in scoreOf && heads[score] != None
    ensures heads[score].value < |prev| && prev[heads[score].value] < |next|
    ensures buckets[score] != [] && heads[score].value == buckets[score][0]
    ensures prev[heads[score].value] == buckets[score][|buckets[score]| - 1]
    ensures Inv(heads, next[col := heads[score].value][prev[heads[score].value] := col],
                prev[col := prev[heads[score].value]][heads[score].value := col],
                Min(minScore, score), len + 1,
                buckets[score := buckets[score] + [col]], scoreOf[col := score])
  {
    var b := buckets[score];
    assert BucketOk(heads, next, prev, buckets, score);
    var head, last := b[0], b[|b| - 1];
    assert col !in b by {
      if col in b { OwnedAt(buckets, scoreOf, score, col); }
    }
    RingAppend(b, next, prev, col);
    assert OwnerOk(buckets, scoreOf, score, 0) && OwnerOk(buckets, scoreOf, score, |b| - 1);
    LinkedUpdate(heads, next, prev, buckets, scoreOf, score,
                 heads, next[col := head][last := col], prev[col := last][head := col], b + [col],
                 {col, head, last});
    AddOwned(buckets, scoreOf, col, score);
    FlattenUpdate(buckets, score, b + [col]);
  }

  /** Removing the only column of a bucket empties it. */
  lemma RemoveLast(heads: seq<Option<nat>>, next: seq<nat>, prev: seq<nat>, minScore: nat, len: nat,
                   buckets: seq<seq<nat>>, scoreOf: map<nat, nat>, col: nat, score: nat)
    requires Inv(heads, next, prev, minScore, len, buckets, scoreOf)
    requires col in scoreOf && scoreOf[col] == score
    requires col < |next| && next[col] == col
    ensures score < |heads| && buckets[score] == [col] && heads[score] == Some(col) && len > 0
    ensures Inv(heads[score := None], next, prev, minScore, len - 1,
                buckets[score := Without(buckets[score], col)], scoreOf - {col})
  {
    PlacedAt(buckets, scoreOf, col);
    var b := buckets[score];
    assert BucketOk(heads, next, prev, buckets, score);
    var i :| 0 <= i < |b| && b[i] == col;
    SelfLoopIffSingleton(b, next, prev, i);
    assert b == [col];
    WithoutAt(b, 0);
    assert Without(b, col) == [];
    LinkedUpdate(heads, next, prev, buckets, scoreOf, score, heads[score := None], next, prev, [], {});
    RemoveOwned(buckets, scoreOf, col, score);
    FlattenUpdate(buckets, score, []);
  }

  /** Removing a column from a ring of two or more unlinks it; the head moves on if it was the head. */
  lemma RemoveFromRing(heads: seq<Option<nat>>, next: seq<nat>, prev: seq<nat>, minScore: nat, len: nat,
                       buckets: seq<seq<nat>>, scoreOf: map<nat, nat>, col: nat, score: nat)
    requires Inv(heads, next, prev, minScore, len, buckets, scoreOf)
    requires col in scoreOf && scoreOf[col] == score
    requires col < |next| && next[col] != col
    ensures score < |heads| && heads[score] != None && len > 0
    ensures prev[col] < |next| && next[col] < |prev|
    ensures Inv(if heads[score].value == col then heads[score := Some(next[col])] else heads,
                next[prev[col] := next[col]], prev[next[col] := prev[col]], minScore, len - 1,
                buckets[score := Without(buckets[score], col)], scoreOf - {col})
  {
    PlacedAt(buckets, scoreOf, col);
    var b := buckets[score];
    assert BucketOk(heads, next, prev, buckets, score);
    var i :| 0 <= i < |b| && b[i] == col;
    SelfLoopIffSingleton(b, next, prev, i);
    RingUnlink(b, next, prev, i);
    WithoutAt(b, i);
    var b' := b[..i] + b[i + 1..];
    assert LinkOk(b, next, prev, i);
    var p, q := prev[col], next[col];
    var heads' := if heads[score].value == col then heads[score := Some(q)] else heads;
    assert heads'[score] == HeadOf(b') by {
      if i == 0 {
        assert b' == b[1..] && q == b[1];
      } else {
        assert b[0] != col && b'[0] == b[0];
      }
    }
    assert OwnerOk(buckets, scoreOf, score, Pred(i, |b|)) && OwnerOk(buckets, scoreOf, score, Succ(i, |b|));
    LinkedUpdate(heads, next, prev, buckets, scoreOf, score,
                 heads', next[p := q], prev[q := p], b', {p, q});
    RemoveOwned(buckets, scoreOf, col, score);
    FlattenUpdate(buckets, score, b');
  }

  /** All heads are unset exactly when every ring is empty. */
  lemma HeadsNoneIffEmpty(heads: seq<Option<nat>>, next: seq<nat>, prev: seq<nat>, buckets: seq<seq<nat>>)
    requires |buckets| == |heads| && Linked(heads, next, prev, buckets)
    ensures (forall s :: 0 <= s < |heads| ==> heads[s] == None) <==> (forall s :: 0 <= s < |buckets| ==> buckets[s] == [])
  {
    forall s | 0 <= s < |heads|
      ensures heads[s] == None <==> buckets[s] == []
    {
      assert BucketOk(heads, next, prev, buckets, s);
    }
  }

  /**
   * Buckets of distinct columns, each column owned by the score of its bucket
   * (offset by `base`), flatten to a sequence of distinct columns.
   */
  lemma {:induction false} FlattenDistinct(bs: seq<seq<nat>>, scoreOf: map<nat, nat>, base: nat)
    requires forall s :: 0 <= s < |bs| ==> Distinct(bs[s])
    requires forall s, i :: 0 <= s < |bs| && 0 <= i < |bs[s]| ==>
               bs[s][i] in scoreOf && scoreOf[bs[s][i]] == base + s
    ensures Distinct(Flatten(bs))
    ensures forall k :: 0 <= k < |Flatten(bs)| ==> Flatten(bs)[k] in scoreOf && scoreOf[Flatten(bs)[k]] >= base
  {
    if bs != [] {
      var rest := bs[1..];
      forall s | 0 <= s < |rest|
        ensures Distinct(rest[s])
      {
        assert rest[s] == bs[s + 1];
      }
      forall s, i | 0 <= s < |rest| && 0 <= i < |rest[s]|
        ensures rest[s][i] in scoreOf && scoreOf[rest[s][i]] == base + 1 + s
      {
        assert rest[s] == bs[s + 1];
      }
      FlattenDistinct(rest, scoreOf, base + 1);
      var f, r := bs[0], Flatten(rest);
      assert Flatten(bs) == f + r;
      forall k | 0 <= k < |f + r|
        ensures (f + r)[k] in scoreOf && scoreOf[(f + r)[k]] >= base
      {
        if k >= |f| {
          assert (f + r)[k] == r[k - |f|];
        }
      }
      forall i, j | 0 <= i < j < |f + r|
        ensures (f + r)[i] != (f + r)[j]
      {
        if j < |f| {
        } else if i < |f| {
          assert (f + r)[j] == r[j - |f|];
        } else {
          assert (f + r)[i] == r[i - |f|] && (f + r)[j] == r[j - |f|];
        }
      }
    }
  }

  /** The set of columns a sequence names. */
  ghost function Elems(f: seq<nat>): set<nat>
  {
    set x | x in f
  }

  /** A sequence of distinct columns names as many columns as it is long. */
  lemma {:induction false} DistinctCount(f: seq<nat>)
    requires Distinct(f)
    ensures |Elems(f)| == |f|
  {
    if f != [] {
      var t := f[1..];
      assert Distinct(t) by {
        forall i, j | 0 <= i < j < |t|
          ensures t[i] != t[j]
        {
          assert t[i] == f[i + 1] && t[j] == f[j + 1];
        }
      }
      DistinctCount(t);
      assert f[0] !in t;
      assert Elems(f) == Elems(t) + {f[0]} by {
        assert f == [f[0]] + t;
      }
    }
  }

  /**
   * In a consistent queue the links of every present column are mutually
   * inverse: its predecessor's successor and its successor's predecessor are
   * the column itself.
   */
  lemma PresentLinksInverse(heads: seq<Option<nat>>, next: seq<nat>, prev: seq<nat>, minScore: nat, len: nat,
                            buckets: seq<seq<nat>>, scoreOf: map<nat, nat>, x: nat)
    requires Inv(heads, next, prev, minScore, len, buckets, scoreOf) && x in scoreOf
    ensures x < |next| && x < |prev| && prev[x] < |next| && next[x] < |prev|
    ensures next[prev[x]] == x && prev[next[x]] == x
  {
    PlacedAt(buckets, scoreOf, x);
    var s := scoreOf[x];
    var b := buckets[s];
    assert BucketOk(heads, next, prev, buckets, s);
    var i :| 0 <= i < |b| && b[i] == x;
    assert LinkOk(b, next, prev, i);
    assert LinkOk(b, next, prev, Pred(i, |b|)) && LinkOk(b, next, prev, Succ(i, |b|));
  }

  /**
   * In a consistent queue a column is on the ring of its own score and on no
   * other, and a column that is not present is on no ring; the popping order
   * lists the present columns, each once, so `len` is their number.
   */
  lemma OnOneRing(heads: seq<Option<nat>>, next: seq<nat>, prev: seq<nat>, minScore: nat, len: nat,
                  buckets: seq<seq<nat>>, scoreOf: map<nat, nat>, x: nat)
    requires Inv(heads, next, prev, minScore, len, buckets, scoreOf)
    ensures forall s :: 0 <= s < |buckets| ==> (x in buckets[s] <==> x in scoreOf && scoreOf[x] == s)
    ensures x in Flatten(buckets) <==> x in scoreOf
    ensures Distinct(Flatten(buckets)) && |scoreOf.Keys| == len
  {
    forall s | 0 <= s < |buckets|
      ensures Distinct(buckets[s])
    {
      assert BucketOk(heads, next, prev, buckets, s);
    }
    forall s, i | 0 <= s < |buckets| && 0 <= i < |buckets[s]|
      ensures buckets[s][i] in scoreOf && scoreOf[buckets[s][i]] == 0 + s
    {
      assert OwnerOk(buckets, scoreOf, s, i);
    }
    FlattenDistinct(buckets, scoreOf, 0);
    DistinctCount(Flatten(buckets));
    assert scoreOf.Keys == Elems(Flatten(buckets)) by {
      forall y
        ensures y in scoreOf.Keys <==> y in Elems(Flatten(buckets))
      {
        FlattenMembers(buckets, y);
        if y in scoreOf {
          PlacedAt(buckets, scoreOf, y);
        }
        if y in Flatten(buckets) {
          var s :| 0 <= s < |buckets| && y in buckets[s];
          OwnedAt(buckets, scoreOf, s, y);
        }
      }
    }
    forall s | 0 <= s < |buckets|
      ensures x in buckets[s] <==> x in scoreOf && scoreOf[x] == s
    {
      if x in buckets[s] {
        OwnedAt(buckets, scoreOf, s, x);
      }
      if x in scoreOf && scoreOf[x] == s {
        PlacedAt(buckets, scoreOf, x);
      }
    }
    FlattenMembers(buckets, x);
    if x in scoreOf {
      PlacedAt(buckets, scoreOf, x);
    }
  }

  class ColsQueue {
    const numCols: nat
    const score2head: array<Option<nat>>
    const prev: array<nat>
    const next: array<nat>
    var minScore: nat
    var len: nat
    /** For each score, its ring listed from the head. */
    ghost var buckets: seq<seq<nat>>
    /** The present columns, each with the score it was added with. */
    ghost var scoreOf: map<nat, nat>

    ghost predicate Valid()
      reads this, score2head, prev, next
    {
      score2head.Length == numCols && prev != next &&
      Inv(score2head[..], next[..], prev[..], minScore, len, buckets, scoreOf)
    }

    /** The columns in the order they will be popped: by score, and on each ring from its head. */
    ghost function Contents(): seq<nat>
      reads this
    {
      Flatten(buckets)
    }

    /** An empty queue for scores in [0, numCols), its cursor parked at numCols. */
    constructor (numCols: nat)
      ensures Valid() && fresh(score2head) && fresh(prev) && fresh(next)
      ensures this.numCols == numCols && minScore == numCols && len == 0
      ensures forall s :: 0 <= s < numCols ==> score2head[s] == None
      ensures |buckets| == numCols && (forall s :: 0 <= s < numCols ==> buckets[s] == [])
      ensures scoreOf == map[] && Contents() == []
    {
      this.numCols := numCols;
      score2head := new Option<nat>[numCols](_ => None);
      prev := new nat[numCols](_ => 0);
      next := new nat[numCols](_ => 0);
      minScore := numCols;
      len := 0;
      buckets := seq(numCols, _ => []);
      scoreOf := map[];
      new;
      FlattenEmpty(buckets);
    }

    /** The number of columns present. */
    function Len(): (r: nat)
      reads this, score2head, prev, next
      requires Valid()
      ensures r == |Contents()| && r == |scoreOf|
      ensures r == 0 <==> forall s :: 0 <= s < numCols ==> score2head[s] == None
    {
      FlattenEmpty(buckets);
      OnOneRing(score2head[..], next[..], prev[..], minScore, len, buckets, scoreOf, 0);
      HeadsNoneIffEmpty(score2head[..], next[..], prev[..], buckets);
      len
    }

    /** Puts `col` at the tail of the ring of `score`. */
    method Add(col: nat, score: nat)
      requires Valid()
      requires col < numCols && score < numCols && col !in scoreOf
      modifies this, score2head, prev, next
      ensures Valid()
      ensures len == old(len) + 1
      ensures minScore == Min(old(minScore), score)
      ensures buckets == old(buckets)[score := old(buckets)[score] + [col]]
      ensures scoreOf == old(scoreOf)[col := score]
      ensures score2head[score] == if old(score2head[score]) == None then Some(col) else old(score2head[score])
      ensures forall s :: 0 <= s < numCols && s != score ==> score2head[s] == old(score2head[s])
      ensures forall x :: 0 <= x < numCols && x != col && x !in old(buckets)[score] ==>
                next[x] == old(next[x]) && prev[x] == old(prev[x])
    {
      ghost var heads0, next0, prev0 := score2head[..], next[..], prev[..];
      minScore := Min(minScore, score);
      len := len + 1;
      match score2head[score] {
      case Some(head) =>
        AddToRing(heads0, next0, prev0, old(minScore), old(len), buckets, scoreOf, col, score);
        prev[col] := prev[head];
        next[col] := head;
        next[prev[head]] := col;
        prev[head] := col;
        assert next[..] == next0[col := head][prev0[head] := col];
        assert prev[..] == prev0[col := prev0[head]][head := col];
        assert score2head[..] == heads0;
      case None =>
        AddToEmptyBucket(heads0, next0, prev0, old(minScore), old(len), buckets, scoreOf, col, score);
        prev[col] := col;
        next[col] := col;
        score2head[score] := Some(col);
        assert score2head[..] == heads0[score := Some(col)];
        assert next[..] == next0[col := col] && prev[..] == prev0[col := col];
      }
      buckets := buckets[score := buckets[score] + [col]];
      scoreOf := scoreOf[col := score];
    }

    /** Takes `col`, present with score `score`, off its ring. */
    method Remove(col: nat, score: nat)
      requires Valid()
      requires col < numCols && score < numCols && col in scoreOf && scoreOf[col] == score
      modifies this, score2head, prev, next
      ensures Valid()
      ensures len == old(len) - 1 && minScore == old(minScore)
      ensures buckets == old(buckets)[score := Without(old(buckets)[score], col)]
      ensures scoreOf == old(scoreOf) - {col}
      ensures old(score2head[score]) == Some(col) ==>
                score2head[score] == if old(next[col]) == col then None else Some(old(next[col]))
    {
      ghost var heads0, next0, prev0 := score2head[..], next[..], prev[..];
      PlacedAt(buckets, scoreOf, col);
      if next[col] == col {
        RemoveLast(heads0, next0, prev0, minScore, len, buckets, scoreOf, col, score);
        len := len - 1;
        score2head[score] := None;
        assert score2head[..] == heads0[score := None];
      } else {
        RemoveFromRing(heads0, next0, prev0, minScore, len, buckets, scoreOf, col, score);
        len := len - 1;
        next[prev[col]] := next[col];
        prev[next[col]] := prev[col];
        assert next[..] == next0[prev0[col] := next0[col]];
        assert prev[..] == prev0[next0[col] := prev0[col]];
        if score2head[score].value == col {
          score2head[score] := Some(next[col]);
          assert score2head[..] == heads0[score := Some(next0[col])];
        }
      }
      buckets := buckets[score := Without(buckets[score], col)];
      scoreOf := scoreOf - {col};
    }

    /**
     * Moves the cursor up to the first non-empty bucket and pops that bucket's
     * head; returns None once the cursor has run past every score.
     */
    method PopMin() returns (r: Option<nat>)
      requires Valid()
      modifies this, score2head, prev, next
      ensures Valid()
      ensures old(minScore) <= minScore
      ensures r == None <==> old(len) == 0
      ensures r == None <==> old(Contents()) == []
      ensures r == None <==> forall s :: old(minScore) <= s < numCols ==> old(buckets)[s] == []
      ensures r == None ==> buckets == old(buckets) && scoreOf == old(scoreOf) && len == 0 && minScore == numCols
      ensures r != None ==>
                minScore < numCols && old(buckets)[minScore] != [] &&
                (forall s :: old(minScore) <= s < minScore ==> old(buckets)[s] == []) &&
                r.value == old(buckets)[minScore][0] &&
                buckets == old(buckets)[minScore := old(buckets)[minScore][1..]] &&
                scoreOf == old(scoreOf) - {r.value} && len == old(len) - 1
      ensures r != None ==> r.value == old(Contents())[0] && Contents() == old(Contents())[1..]
    {
      var col: nat;
      while true
        invariant Valid()
        invariant old(minScore) <= minScore <= numCols
        invariant buckets == old(buckets) && scoreOf == old(scoreOf) && len == old(len)
        invariant forall s :: old(minScore) <= s < minScore ==> buckets[s] == []
        decreases numCols - minScore
      {
        if minScore >= numCols {
          FlattenEmpty(buckets);
          return None;
        }
        assert BucketOk(score2head[..], next[..], prev[..], buckets, minScore);
        if score2head[minScore] != None {
          col := score2head[minScore].value;
          break;
        }
        minScore := minScore + 1;
      }
      ghost var b := buckets[minScore];
      assert b != [] && col == b[0];
      assert OwnerOk(buckets, scoreOf, minScore, 0);
      FlattenPopFront(buckets, minScore);
      WithoutAt(b, 0);
      assert b[..0] + b[1..] == b[1..];
      Remove(col, minScore);
      return Some(col);
    }
  }

  /** A queue fresh from construction has nothing to pop. */
  method PopFromNewQueue(numCols: nat) returns (r: Option<nat>)
    ensures r == None
  {
    var q := new ColsQueue(numCols);
    r := q.PopMin();
  }
}
