/**
 * Circular doubly-linked rings of column indices stored in two index arrays,
 * `next` and `prev`, as the bucket queue keeps them. A ring is described by the
 * sequence of its members listed from its head; the lemmas here relate that
 * sequence to the link arrays before and after the splices the queue performs.
 * They work on sequence snapshots of the arrays so that the heap plays no part.
 */
module Rings {

  /** Position after `i` on a ring of `k` members. */
  function Succ(i: nat, k: nat): nat
    requires i < k
  {
    if i + 1 == k then 0 else i + 1
  }

  /** Position before `i` on a ring of `k` members. */
  function Pred(i: nat, k: nat): nat
    requires i < k
  {
    if i == 0 then k - 1 else i - 1
  }

  /** The member at position `i` of `b` links forward and back to its ring neighbours. */
  ghost predicate LinkOk(b: seq<nat>, next: seq<nat>, prev: seq<nat>, i: nat)
    requires i < |b|
  {
    b[i] < |next| && b[i] < |prev| &&
    next[b[i]] == b[Succ(i, |b|)] && prev[b[i]] == b[Pred(i, |b|)]
  }

  /** `b`, listed from its head, is a ring of the links `next`/`prev`. */
  ghost predicate IsRing(b: seq<nat>, next: seq<nat>, prev: seq<nat>)
  {
    (forall i :: 0 <= i < |b| ==> b[i] < |next| && b[i] < |prev|) &&
    (forall i :: 0 <= i < |b| ==> LinkOk(b, next, prev, i))
  }

  ghost predicate Distinct(b: seq<nat>)
  {
    forall i, j :: 0 <= i < j < |b| ==> b[i] != b[j]
  }

  /** `b` with its member `x` taken out (every occurrence). */
  function Without(b: seq<nat>, x: nat): seq<nat>
  {
    if b == [] then []
    else (if b[0] == x then [] else [b[0]]) + Without(b[1..], x)
  }

  /** Exactly the members other than `x` remain. */
  lemma {:induction false} WithoutMembers(b: seq<nat>, x: nat, y: nat)
    ensures y in Without(b, x) <==> y in b && y != x
  {
    if b != [] {
      WithoutMembers(b[1..], x, y);
      assert b == [b[0]] + b[1..];
    }
  }

  /** On a ring of distinct members, taking out the member at `i` drops exactly that position. */
  lemma {:induction false} WithoutAt(b: seq<nat>, i: nat)
    requires Distinct(b) && i < |b|
    ensures Without(b, b[i]) == b[..i] + b[i + 1..]
  {
    if i == 0 {
      assert b[i] !in b[1..];
      WithoutAbsent(b[1..], b[i]);
    } else {
      WithoutAt(b[1..], i - 1);
      assert b[1..][..i - 1] + b[1..][i..] == b[1..i] + b[i + 1..];
      assert b[..i] + b[i + 1..] == [b[0]] + (b[1..i] + b[i + 1..]);
    }
  }

  lemma {:induction false} WithoutAbsent(b: seq<nat>, x: nat)
    requires x !in b
    ensures Without(b, x) == b
  {
    if b != [] {
      WithoutAbsent(b[1..], x);
      assert b == [b[0]] + b[1..];
    }
  }

  /** A member is its own successor exactly when it is alone on its ring. */
  lemma SelfLoopIffSingleton(b: seq<nat>, next: seq<nat>, prev: seq<nat>, i: nat)
    requires IsRing(b, next, prev) && Distinct(b) && i < |b|
    ensures next[b[i]] == b[i] <==> |b| == 1
  {
    assert LinkOk(b, next, prev, i);
    if |b| > 1 {
      assert Succ(i, |b|) != i;
    }
  }

  /** The singleton ring a column forms when it is linked to itself. */
  lemma SingletonRing(col: nat, next: seq<nat>, prev: seq<nat>)
    requires col < |next| && col < |prev|
    ensures IsRing([col], next[col := col], prev[col := col])
  {
  }

  /**
   * Splicing `col` in just before the head of a non-empty ring puts it at the
   * tail of the ring and leaves the head where it is.
   */
  lemma RingAppend(b: seq<nat>, next: seq<nat>, prev: seq<nat>, col: nat)
    requires IsRing(b, next, prev) && Distinct(b) && b != []
    requires col < |next| && col < |prev| && col !in b
    ensures prev[b[0]] == b[|b| - 1]
    ensures IsRing(b + [col],
                   next[col := b[0]][b[|b| - 1] := col],
                   prev[col := b[|b| - 1]][b[0] := col])
    ensures Distinct(b + [col])
  {
    var k := |b|;
    var b', next', prev' := b + [col], next[col := b[0]][b[k - 1] := col], prev[col := b[k - 1]][b[0] := col];
    assert LinkOk(b, next, prev, 0);
    forall i | 0 <= i < k + 1
      ensures LinkOk(b', next', prev', i)
    {
      AppendLink(b, next, prev, col, i);
    }
  }

  lemma AppendLink(b: seq<nat>, next: seq<nat>, prev: seq<nat>, col: nat, i: nat)
    requires IsRing(b, next, prev) && Distinct(b) && b != []
    requires col < |next| && col < |prev| && col !in b && i <= |b|
    ensures LinkOk(b + [col], next[col := b[0]][b[|b| - 1] := col], prev[col := b[|b| - 1]][b[0] := col], i)
  {
    var k := |b|;
    var head, last := b[0], b[k - 1];
    var b' := b + [col];
    assert LinkOk(b, next, prev, 0);
    if i == k {
      assert b'[i] == col && col != last && col != head;
    } else if i == k - 1 {
      assert b'[i] == last != col;
      if i != 0 {
        assert last != head;
        assert LinkOk(b, next, prev, i);
      }
    } else if i == 0 {
      assert b'[i] == head != col && head != last;
    } else {
      assert b'[i] == b[i] != col && b[i] != head && b[i] != last;
      assert LinkOk(b, next, prev, i);
    }
  }

  /** Position `m` of a ring with position `i` removed is position `Skip(m, i)` of the original. */
  function Skip(m: nat, i: nat): nat
  {
    if m < i then m else m + 1
  }

  /**
   * Unlinking the member at position `i` of a ring of at least two distinct
   * members (its predecessor now points forward to its successor and back)
   * leaves the ring of the remaining members, in the same order.
   */
  lemma RingUnlink(b: seq<nat>, next: seq<nat>, prev: seq<nat>, i: nat)
    requires IsRing(b, next, prev) && Distinct(b) && 1 < |b| && i < |b|
    ensures prev[b[i]] < |next| && next[b[i]] < |prev|
    ensures IsRing(b[..i] + b[i + 1..],
                   next[prev[b[i]] := next[b[i]]],
                   prev[next[b[i]] := prev[b[i]]])
    ensures Distinct(b[..i] + b[i + 1..])
  {
    var k := |b|;
    var b' := b[..i] + b[i + 1..];
    assert LinkOk(b, next, prev, i);
    var next', prev' := next[prev[b[i]] := next[b[i]]], prev[next[b[i]] := prev[b[i]]];
    assert |b'| == k - 1;
    forall m | 0 <= m < |b'|
      ensures LinkOk(b', next', prev', m)
    {
      UnlinkNext(b, next, prev, i, m);
      UnlinkPrev(b, next, prev, i, m);
    }
    DistinctRemoveAt(b, i);
  }

  lemma DistinctRemoveAt(b: seq<nat>, i: nat)
    requires Distinct(b) && i < |b|
    ensures Distinct(b[..i] + b[i + 1..])
  {
  }

  lemma UnlinkNext(b: seq<nat>, next: seq<nat>, prev: seq<nat>, i: nat, m: nat)
    requires IsRing(b, next, prev) && Distinct(b) && 1 < |b| && i < |b| && m < |b| - 1
    ensures prev[b[i]] < |next| && b[Skip(m, i)] < |next|
    ensures (b[..i] + b[i + 1..])[m] == b[Skip(m, i)]
    ensures next[prev[b[i]] := next[b[i]]][b[Skip(m, i)]] == (b[..i] + b[i + 1..])[Succ(m, |b| - 1)]
  {
    var k := |b|;
    var b' := b[..i] + b[i + 1..];
    var m0 := Skip(m, i);
    assert LinkOk(b, next, prev, i) && LinkOk(b, next, prev, m0);
    var s := Succ(m, k - 1);
    assert b'[s] == b[Skip(s, i)];
    if Succ(m0, k) == i {
      assert m0 == Pred(i, k);
      if i == 0 {
        assert s == 0 && b'[0] == b[1];
      } else if i == k - 1 {
        assert s == 0 && b'[0] == b[0];
      } else {
        assert s == i && Skip(s, i) == i + 1;
      }
    } else {
      assert m0 != Pred(i, k);
      assert b[m0] != b[Pred(i, k)];
      assert Skip(s, i) == Succ(m0, k);
    }
  }

  lemma UnlinkPrev(b: seq<nat>, next: seq<nat>, prev: seq<nat>, i: nat, m: nat)
    requires IsRing(b, next, prev) && Distinct(b) && 1 < |b| && i < |b| && m < |b| - 1
    ensures next[b[i]] < |prev| && b[Skip(m, i)] < |prev|
    ensures (b[..i] + b[i + 1..])[m] == b[Skip(m, i)]
    ensures prev[next[b[i]] := prev[b[i]]][b[Skip(m, i)]] == (b[..i] + b[i + 1..])[Pred(m, |b| - 1)]
  {
    var k := |b|;
    var b' := b[..i] + b[i + 1..];
    var m0 := Skip(m, i);
    assert LinkOk(b, next, prev, i) && LinkOk(b, next, prev, m0);
    var p := Pred(m, k - 1);
    assert b'[p] == b[Skip(p, i)];
    if Pred(m0, k) == i {
      assert m0 == Succ(i, k);
      if i == k - 1 {
        assert m0 == 0 && p == k - 2 && Skip(p, i) == k - 2;
      } else if i == 0 {
        assert m == 0 && p == k - 2 && Skip(p, i) == k - 1;
      } else {
        assert m == i && p == i - 1 && Skip(p, i) == i - 1;
      }
    } else {
      assert m0 != Succ(i, k);
      assert b[m0] != b[Succ(i, k)];
      assert Skip(p, i) == Pred(m0, k);
    }
  }

  /** A ring none of whose members had its links rewritten is still a ring. */
  lemma RingFrame(b: seq<nat>, next: seq<nat>, prev: seq<nat>, next': seq<nat>, prev': seq<nat>)
    requires IsRing(b, next, prev)
    requires |next'| == |next| && |prev'| == |prev|
    requires forall i :: 0 <= i < |b| ==> next'[b[i]] == next[b[i]] && prev'[b[i]] == prev[b[i]]
    ensures IsRing(b, next', prev')
  {
    forall i | 0 <= i < |b|
      ensures LinkOk(b, next', prev', i)
    {
      assert LinkOk(b, next, prev, i);
    }
  }
}
