# Column pre-ordering and the bucket queue of microlp, in Dafny

This project models the column pre-ordering of the microlp linear-programming
solver (`src/lib.rs`). The routine `order_simple` orders the columns of a
sparse matrix by their number of entries. It relies on `ColsQueue`, a bucket
priority queue for integer scores.

- `ColsQueue` (`cols_queue.dfy`, module `ColsQueues`) is a class. Its fields mirror the Rust struct:
  - `score2head`, an array that holds, for each score, the head of a circular doubly-linked ring of columns;
  - the index arrays `prev` and `next`, which thread those rings;
  - the cursor `minScore`;
  - the counter `len`.

  Two ghost fields give the abstract view. `buckets[s]` lists the ring of score `s` from its head, and `scoreOf` maps each present column to its score. `Valid()` ties the arrays to that view:
  - every ring is linked both ways;
  - every present column is on the ring of its score and on no other;
  - `len` counts the columns;
  - no bucket below `minScore` is non-empty.

  `Contents()` reads the buckets lowest score first. `PopMin` is proved to pop `Contents()[0]`.
- The ring splices (`rings.dfy`, module `Rings`) are stated as pure lemmas over sequence snapshots of `next` and `prev`: append at the tail, unlink, and the singleton ring.
- `order_simple` (`order.dfy`, module `Ordering`) is the method `OrderSimple`. Its three loops sit in `QueueColumns`, `PopAll` and `Invert`. It is proved to return `SimpleOrder(cols)`. That reference order is shown to be the one and only permutation of the columns sorted by length and then by index. `orig2new` is shown to be the exact inverse of `new2orig`.

The Rust closure `get_col` becomes a sequence `cols` of columns. Only their lengths are used.

**Tie order.** `add` splices a column in just before the head of its ring, which is the ring's tail, and leaves the head where it is. `remove`, called from `pop_min`, takes the head and moves the head on to `next`. So columns of equal length come out first-in-first-out, in ascending column index, not last-in-first-out. The model follows the code, and `Ordering.TiesInIndexOrder` shows this on an example.

## Model

| member | source | states |
|---|---|---|
| ColsQueues.ColsQueue.constructor | src/lib.rs:53-61 | all heads unset, `len` 0, cursor at `numCols`, every bucket empty, nothing present |
| ColsQueues.ColsQueue.Len | src/lib.rs:63-65 | `len` is the number of present columns (the size of `scoreOf`) and the length of the popping order, and is 0 exactly when every head is unset |
| ColsQueues.ColsQueue.Add | src/lib.rs:82-96 | keeps the invariant; `len` + 1; cursor becomes min(cursor, score); `col` appended at the tail of its bucket; head set only if the bucket was empty; other heads and the links of columns off that ring unchanged |
| ColsQueues.ColsQueue.Remove | src/lib.rs:98-109 | keeps the invariant; `len` − 1; `col` leaves its bucket and no other; if it was the head, the head moves to its successor, or the bucket becomes empty if it was alone |
| ColsQueues.ColsQueue.PopMin | src/lib.rs:67-80 | returns None exactly when the queue is empty, that is when every bucket from the cursor up is empty; otherwise returns the head of the lowest non-empty bucket, which is the first of `Contents()`, and leaves the rest; the cursor never moves back, and on None it rests at `numCols` |
| ColsQueues.PopFromNewQueue | src/lib.rs:53-71 | popping a freshly built queue gives None |
| ColsQueues.AddToEmptyBucket | src/lib.rs:91-95 | a column added to an empty bucket becomes its self-linked ring, and the invariant holds for the new state |
| ColsQueues.AddToRing | src/lib.rs:86-90 | the column spliced in before the head becomes the ring's tail, the head stays, and the invariant holds for the new state |
| ColsQueues.RemoveLast | src/lib.rs:100-101 | a column that is its own successor is alone in its bucket; unsetting the head empties the bucket and keeps the invariant |
| ColsQueues.RemoveFromRing | src/lib.rs:102-108 | unlinking a column from a ring of two or more leaves the others in order; the head moves on only if it was the head; the invariant holds |
| ColsQueues.PresentLinksInverse | src/lib.rs:86-90 | in a consistent queue, `next[prev[x]] == x` and `prev[next[x]] == x` for every present column `x` |
| ColsQueues.OnOneRing | src/lib.rs:82-109 | a present column is on the ring of its score and on no other; an absent one is on none; the popping order holds exactly the present columns, each once, so `len` equals the number of present columns |
| ColsQueues.FlattenDistinct | src/lib.rs:82-109 | rings of distinct columns, each column owned by the score of its ring, read out with no column repeated |
| ColsQueues.HeadsNoneIffEmpty | src/lib.rs:67-76 | every head is unset exactly when every bucket is empty |
| ColsQueues.FlattenPopFront | src/lib.rs:67-79 | when the buckets below `s` are empty, the popping order starts with the head of bucket `s` |
| Rings.SelfLoopIffSingleton | src/lib.rs:100 | on a ring of distinct columns, a column is its own successor exactly when it is alone |
| Rings.SingletonRing | src/lib.rs:92-93 | a column linked to itself forms a one-column ring |
| Rings.RingAppend | src/lib.rs:87-90 | splicing a new column in before the head of a ring gives the ring with that column at the tail, still of distinct columns |
| Rings.RingUnlink | src/lib.rs:103-104 | linking a column's predecessor and successor to each other gives the ring without that column, others in the same order |
| Rings.RingFrame | src/lib.rs:82-109 | a ring none of whose members' links were rewritten is still a ring |
| Rings.WithoutAt | src/lib.rs:98-109 | taking a column off a ring of distinct columns drops exactly its position |
| Ordering.ScoreBucketContents | src/lib.rs:10-11 | the bucket of score `s` holds exactly the columns with `s + 1` entries, in ascending index |
| Ordering.ScoreBucketsStep | src/lib.rs:11 | adding column `c` appends it to the bucket of its length minus one and to no other |
| Ordering.ScoreBucketsLength | src/lib.rs:10-12 | after the first `c` additions the queue holds `c` columns |
| Ordering.FlattenOrdered | src/lib.rs:67-80 | buckets of rising score, each in ascending index, read out sorted by (length, index) |
| Ordering.SimpleOrderMembers | src/lib.rs:10-18 | the reference order names exactly the columns `0 .. size-1` |
| Ordering.SimpleOrderSorted | src/lib.rs:7-18 | the reference order is a permutation of the columns, sorted by length with ties by ascending index |
| Ordering.SortedUnique | src/lib.rs:7 | two sequences sorted by (length, index) that hold the same columns are equal |
| Ordering.SimpleOrderCharacterized | src/lib.rs:7-18 | a sequence is a permutation sorted by (length, index) exactly when it is the reference order |
| Ordering.OrderSimple | src/lib.rs:8-26 | `new2orig` is the reference order, a permutation sorted by (length, index); `orig2new[new2orig[i]] == i` and `new2orig[orig2new[c]] == c` |
| Ordering.QueueColumns | src/lib.rs:9-12 | after queuing every column with score length − 1, the popping order is the reference order |
| Ordering.PopAll | src/lib.rs:14-18 | `size` pops never meet an empty queue and yield the popping order; the queue is left valid and drained (`len` 0, nothing to pop) |
| Ordering.Invert | src/lib.rs:20-23 | the array built by writing `new` at `orig` is the inverse permutation |
| Ordering.SourceTestOrder | src/lib.rs:137-161 | the columns 0, 1, 2 and 4 of the test matrix, of lengths 4, 1, 2 and 3, meet the routine's precondition (so the test does not panic) and are ordered 1, 2, 3, 0 |
| Ordering.TiesInIndexOrder | src/lib.rs:105-106 | columns of lengths 2, 1, 2, 1 are ordered 1, 3, 0, 2: equal lengths come out in ascending index |

## Left out

- Ordering.OrderSimple: requires every column to have between 1 and `size` entries. An empty column makes `len() - 1` underflow, and a longer one indexes `score2head` out of range. Both are panics in the Rust code and are not modelled as outcomes.
- ColsQueues.ColsQueue.Add: requires `col < numCols`, `score < numCols` and `col` not already present. The Rust code does not check these. An out-of-range index panics, and adding a present column again corrupts the rings; neither is modelled.
- ColsQueues.ColsQueue.Remove: requires `col` present with score `score`. This also gives `col < numCols` and `score < numCols`, which are written out for the well-formedness of the postcondition. The Rust code trusts its only caller, `pop_min`, to meet this.
- `Slice` and `elems` (src/lib.rs:30-39): unused code that only returns a sub-slice.
- `BlockDiagForm` (src/lib.rs:114-121): a data declaration with no behaviour.
- The test module (src/lib.rs:124-161): it builds the matrix with the external `sprs` crate, which is not part of this model. `Ordering.SourceTestOrder` states the order that test's columns receive.
- `usize` arithmetic: indices and counters are unbounded naturals. The only place where wrap-around would matter, `len() - 1` on an empty column, is excluded by the precondition above.
- Rust lifetimes, the `impl Fn` closure type, the `Clone`/`Debug` derives and the `Vec` capacity hint carry no behaviour.
- The `while` loop and the two `for` loops of `order_simple` sit in three helper methods rather than one method body. This keeps each proof small, and the steps are unchanged.
