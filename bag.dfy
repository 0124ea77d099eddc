/** The queue of upcoming pieces and the 7-bag randomiser feeding it. The
    shuffle itself is not modelled: the n-th shuffled bag is `bags(n)`, any
    permutation of the seven kinds. */
module Bag {
  import opened Geometry

  /** Number of upcoming pieces the queue must always be able to show. */
  const QUEUE_LENGTH: int := 5

  const AllKinds: seq<PieceKind> := [0, 1, 2, 3, 4, 5, 6]

  /** A bag: the seven kinds, each exactly once, in some order. */
  predicate IsBag(b: seq<PieceKind>) {
    |b| == 7 && multiset(b) == multiset(AllKinds)
  }

  lemma BagHasEveryKindOnce(b: seq<PieceKind>, k: PieceKind)
    requires IsBag(b)
    ensures multiset(b)[k] == 1 && k in b
  {
    assert AllKinds[k] == k;
    assert multiset(AllKinds)[k] == 1;
  }

  /** Appends a whole bag when the queue holds fewer than `threshold`
      pieces. */
  function Refill(queue: seq<PieceKind>, bag: seq<PieceKind>, threshold: int): (q: seq<PieceKind>)
    ensures |queue| < threshold ==> q == queue + bag
    ensures |queue| >= threshold ==> q == queue
  {
    if |queue| < threshold then queue + bag else queue
  }

  /** After a refill with a bag, the queue holds at least `threshold` pieces
      whenever it held at least threshold - 7. */
  lemma RefillReachesThreshold(queue: seq<PieceKind>, bag: seq<PieceKind>, threshold: int)
    requires IsBag(bag) && |queue| >= threshold - 7
    ensures |Refill(queue, bag, threshold)| >= threshold
  {
  }

  /** Bag n of the randomiser's output, counting from 0. */
  function NthBag(bags: nat -> seq<PieceKind>, n: nat): seq<PieceKind> {
    bags(n)
  }

  /** Bag n of the randomiser's output is a bag. */
  predicate IsNthBag(bags: nat -> seq<PieceKind>, n: nat) {
    IsBag(NthBag(bags, n))
  }

  /** Every bag the randomiser deals is a bag. */
  ghost predicate AllBags(bags: nat -> seq<PieceKind>) {
    forall n: nat :: IsNthBag(bags, n)
  }

  /** The k-th piece the randomiser ever produces (counting from 0): piece
      k mod 7 of bag k div 7. */
  function BagPiece(bags: nat -> seq<PieceKind>, k: nat): (p: PieceKind)
  {
    var b := bags(k / 7);
    if k % 7 < |b| then b[k % 7] else 0
  }

  lemma BagPieceAt(bags: nat -> seq<PieceKind>, n: nat, j: int)
    requires AllBags(bags) && 0 <= j < 7
    ensures IsNthBag(bags, n) && BagPiece(bags, 7 * n + j) == NthBag(bags, n)[j]
  {
    assert IsNthBag(bags, n);
    assert (7 * n + j) / 7 == n && (7 * n + j) % 7 == j;
  }

  /** No drought: any thirteen consecutive pieces of the stream contain
      every kind, because they include one whole bag. */
  lemma EveryKindWithinThirteen(bags: nat -> seq<PieceKind>, start: nat, k: PieceKind)
    requires AllBags(bags)
    ensures exists i :: start <= i < start + 13 && BagPiece(bags, i) == k
  {
    var n := (start + 6) / 7;
    assert start <= 7 * n <= start + 6;
    assert IsNthBag(bags, n);
    BagHasEveryKindOnce(bags(n), k);
    var j :| 0 <= j < 7 && bags(n)[j] == k;
    BagPieceAt(bags, n, j);
  }

  /** Between two pieces of one kind there are at most twelve others: the
      next piece of the same kind comes within thirteen draws. */
  lemma NextSameWithinThirteen(bags: nat -> seq<PieceKind>, i: nat)
    requires AllBags(bags)
    ensures exists i2 :: i < i2 <= i + 13 && BagPiece(bags, i2) == BagPiece(bags, i)
  {
    EveryKindWithinThirteen(bags, i + 1, BagPiece(bags, i));
  }

  /** `queue` lists, in order, the pieces of the stream from position
      `from` on. */
  predicate InStreamOrder(bags: nat -> seq<PieceKind>, queue: seq<PieceKind>, from: nat)
    decreases |queue|
  {
    |queue| == 0 || (queue[0] == BagPiece(bags, from) && InStreamOrder(bags, queue[1..], from + 1))
  }

  /** The i-th entry of a queue in stream order is piece from + i. */
  lemma {:induction false} InStreamOrderAt(bags: nat -> seq<PieceKind>, queue: seq<PieceKind>, from: nat, i: nat)
    requires InStreamOrder(bags, queue, from) && i < |queue|
    ensures queue[i] == BagPiece(bags, from + i)
    decreases i
  {
    if i > 0 {
      InStreamOrderAt(bags, queue[1..], from + 1, i - 1);
    }
  }

  /** Two runs of the stream, the second starting where the first ends,
      make one run. */
  lemma {:induction false} ConcatInStreamOrder(bags: nat -> seq<PieceKind>, q1: seq<PieceKind>, q2: seq<PieceKind>, from: nat)
    requires InStreamOrder(bags, q1, from) && InStreamOrder(bags, q2, from + |q1|)
    ensures InStreamOrder(bags, q1 + q2, from)
    decreases |q1|
  {
    if |q1| > 0 {
      ConcatInStreamOrder(bags, q1[1..], q2, from + 1);
      assert (q1 + q2)[1..] == q1[1..] + q2;
    } else {
      assert q1 + q2 == q2;
    }
  }

  /** Bag n, from its j-th piece on, is the run of the stream starting at
      7 n + j. */
  lemma {:induction false} BagInStreamOrder(bags: nat -> seq<PieceKind>, n: nat, j: nat)
    requires AllBags(bags) && j <= 7
    ensures IsNthBag(bags, n) && InStreamOrder(bags, NthBag(bags, n)[j..], 7 * n + j)
    decreases 7 - j
  {
    assert IsNthBag(bags, n);
    if j < 7 {
      BagInStreamOrder(bags, n, j + 1);
      BagPieceAt(bags, n, j);
      assert bags(n)[j..][1..] == bags(n)[j + 1..];
    }
  }

  /** The queue holds, in order, the pieces of the stream that follow the
      first `dealt` ones, up to the end of bag `bagsUsed` - 1. */
  predicate QueueInBagOrder(bags: nat -> seq<PieceKind>, queue: seq<PieceKind>, dealt: nat, bagsUsed: nat) {
    dealt + |queue| == 7 * bagsUsed && InStreamOrder(bags, queue, dealt)
  }

  /** Appending the next bag keeps the queue in stream order. */
  lemma AppendBagKeepsOrder(bags: nat -> seq<PieceKind>, queue: seq<PieceKind>, dealt: nat, bagsUsed: nat)
    requires AllBags(bags) && QueueInBagOrder(bags, queue, dealt, bagsUsed)
    ensures QueueInBagOrder(bags, queue + NthBag(bags, bagsUsed), dealt, bagsUsed + 1)
  {
    assert IsNthBag(bags, bagsUsed);
    BagInStreamOrder(bags, bagsUsed, 0);
    assert bags(bagsUsed)[0..] == bags(bagsUsed);
    ConcatInStreamOrder(bags, queue, bags(bagsUsed), dealt);
  }

  /** Taking the head of the queue keeps the rest in stream order. */
  lemma TakeHeadKeepsOrder(bags: nat -> seq<PieceKind>, queue: seq<PieceKind>, dealt: nat, bagsUsed: nat)
    requires QueueInBagOrder(bags, queue, dealt, bagsUsed) && |queue| > 0
    ensures queue[0] == BagPiece(bags, dealt)
    ensures QueueInBagOrder(bags, queue[1..], dealt + 1, bagsUsed)
  {
  }
}
