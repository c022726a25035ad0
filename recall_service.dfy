/** The recall scheduler (RecallService): each item is rated from its pool,
    the days since its last recall and its recall count; `recall(x)` polls the
    x best-rated items from a max-priority queue. The double arithmetic is
    modelled over the reals, and the power term daysSince^beta is a parameter:
    any function that is positive on positive day counts. */
module Scheduling {
  import opened Basics
  import opened Dates
  import opened Tables

  /** The tuning of the scheduler: alpha, gamma, the reference date and the
      power term standing for Math.pow(daysSince, beta). */
  datatype Scoring = Scoring(alpha: real, gamma: real, date: Date, power: int -> real)

  /** The tuning the rating formula is meaningful for: positive factors, as in
      the defaults alpha = 10, gamma = 1. */
  ghost predicate ScoringOk(s: Scoring) {
    s.alpha > 0.0 && s.gamma > 0.0 && ValidDate(s.date)
    && forall d :: d >= 1 ==> s.power(d) > 0.0
  }

  /** An item the formula can rate: a real last-recall date, a non-negative count. */
  ghost predicate Rateable(it: Item) {
    ValidDate(it.lastRecall) && it.totalRecalls >= 0
  }

  /** The pool weight map: 3 for H, 2 for M, 1 for L. */
  function Weight(p: Pool): (w: real)
    ensures w > 0.0
    ensures p == H ==> w == 3.0
    ensures p == M ==> w == 2.0
    ensures p == L ==> w == 1.0
  {
    match p
    case H => 3.0
    case M => 2.0
    case L => 1.0
  }

  /** A heavier pool has a strictly larger weight: H over M over L. */
  predicate Heavier(p: Pool, q: Pool) {
    (p == H && q != H) || (p == M && q == L)
  }

  /** max(1, DAYS.between(lastRecall, date) + 1). */
  function DaysSince(last: Date, date: Date): (d: int)
    requires ValidDate(last) && ValidDate(date)
    ensures d >= 1
    ensures DaysBetween(last, date) >= 0 ==> d == DaysBetween(last, date) + 1
    ensures DaysBetween(last, date) < 0 ==> d == 1
  {
    var n := DaysBetween(last, date) + 1;
    if n > 1 then n else 1
  }

  /** The rating formula on its factors: pool weight times alpha times the
      power term, over the recall count plus gamma. */
  function Score(weight: real, alpha: real, power: real, denominator: real): (r: real)
    requires weight > 0.0 && alpha > 0.0 && power > 0.0 && denominator > 0.0
    ensures r > 0.0
  {
    var n := weight * alpha;
    assert n > 0.0;
    assert n * power > 0.0;
    n * power / denominator
  }

  /** getRating */
  function Rating(s: Scoring, it: Item): (r: real)
    requires ScoringOk(s) && Rateable(it)
  {
    Score(Weight(it.pool), s.alpha, s.power(DaysSince(it.lastRecall, s.date)), it.totalRecalls as real + s.gamma)
  }

  /** An item recalled on the reference date, or later, counts one day. */
  lemma DaysSinceSameDay(d: Date)
    requires ValidDate(d)
    ensures DaysSince(d, d) == 1
  {
  }

  /** Moving the reference date on by one day adds one day to every item
      recalled on or before it. */
  lemma DaysSinceNextDay(last: Date, date: Date)
    requires ValidDate(last) && ValidDate(date) && date != Date(9999, 12, 31)
    requires DayNumber(last) <= DayNumber(date)
    ensures ValidDate(NextDay(date))
    ensures DaysSince(last, NextDay(date)) == DaysSince(last, date) + 1
  {
    NextDayIsOneLater(date);
  }

  /** A larger denominator gives a strictly smaller score. */
  lemma ScoreFallsWithDenominator(w: real, alpha: real, p: real, d1: real, d2: real)
    requires w > 0.0 && alpha > 0.0 && p > 0.0 && 0.0 < d1 < d2
    ensures Score(w, alpha, p, d1) > Score(w, alpha, p, d2)
  {
    var n := w * alpha * p;
    assert n > 0.0 by {
      assert w * alpha > 0.0;
    }
    var q1 := n / d1;
    var q2 := n / d2;
    assert q1 * d1 == n && q2 * d2 == n;
    assert q1 > 0.0;
    assert q1 * d2 == n + q1 * (d2 - d1);
    assert q1 * (d2 - d1) > 0.0;
    assert q1 * d2 > q2 * d2;
  }

  /** A larger weight gives a strictly larger score. */
  lemma ScoreRisesWithWeight(wa: real, wb: real, alpha: real, p: real, d: real)
    requires 0.0 < wb < wa && alpha > 0.0 && p > 0.0 && d > 0.0
    ensures Score(wa, alpha, p, d) > Score(wb, alpha, p, d)
  {
    assert wa * alpha > wb * alpha;
    assert wa * alpha * p > wb * alpha * p;
  }

  /** Same pool and same last recall: more recalls rate strictly lower. */
  lemma RatingFallsWithRecalls(s: Scoring, a: Item, b: Item)
    requires ScoringOk(s) && Rateable(a) && Rateable(b)
    requires a.pool == b.pool && a.lastRecall == b.lastRecall
    requires a.totalRecalls < b.totalRecalls
    ensures Rating(s, a) > Rating(s, b)
  {
    var days := DaysSince(a.lastRecall, s.date);
    ScoreFallsWithDenominator(Weight(a.pool), s.alpha, s.power(days),
      a.totalRecalls as real + s.gamma, b.totalRecalls as real + s.gamma);
  }

  /** Same last recall and same count: a heavier pool rates strictly higher. */
  lemma RatingRisesWithPool(s: Scoring, a: Item, b: Item)
    requires ScoringOk(s) && Rateable(a) && Rateable(b)
    requires a.lastRecall == b.lastRecall && a.totalRecalls == b.totalRecalls
    requires Heavier(a.pool, b.pool)
    ensures Rating(s, a) > Rating(s, b)
  {
    var days := DaysSince(a.lastRecall, s.date);
    ScoreRisesWithWeight(Weight(a.pool), Weight(b.pool), s.alpha, s.power(days),
      a.totalRecalls as real + s.gamma);
  }

  /** Ratings along a list never increase. */
  ghost predicate NonIncreasing(s: Scoring, items: seq<Item>)
    requires ScoringOk(s) && forall it :: it in items ==> Rateable(it)
  {
    forall i, j :: 0 <= i < j < |items| ==> Rating(s, items[j]) <= Rating(s, items[i])
  }

  /** The head of the priority queue: an item no other item outrates. */
  method MaxIndex(s: Scoring, q: seq<Item>) returns (k: int)
    requires ScoringOk(s) && q != [] && forall it :: it in q ==> Rateable(it)
    ensures 0 <= k < |q|
    ensures forall j :: 0 <= j < |q| ==> Rating(s, q[j]) <= Rating(s, q[k])
  {
    k := 0;
    var i := 1;
    while i < |q|
      invariant 1 <= i <= |q| && 0 <= k < i
      invariant forall j :: 0 <= j < i ==> Rating(s, q[j]) <= Rating(s, q[k])
    {
      if Rating(s, q[i]) > Rating(s, q[k]) {
        k := i;
      }
      i := i + 1;
    }
  }

  /** The list without the element at `k`. */
  function RemoveAt(q: seq<Item>, k: int): (r: seq<Item>)
    requires 0 <= k < |q|
    ensures |r| == |q| - 1
    ensures multiset(r) + multiset{q[k]} == multiset(q)
  {
    assert q == q[..k] + [q[k]] + q[k + 1..];
    q[..k] + q[k + 1..]
  }

  /** Removing one element of a list with distinct ids removes exactly its id. */
  lemma RemoveAtIds(q: seq<Item>, k: int)
    requires 0 <= k < |q| && Distinct(IdsOf(q))
    ensures Distinct(IdsOf(RemoveAt(q, k)))
    ensures Elems(IdsOf(RemoveAt(q, k))) == Elems(IdsOf(q)) - {q[k].id}
    ensures forall o :: o in RemoveAt(q, k) ==> o in q
  {
    var r := RemoveAt(q, k);
    assert forall i :: 0 <= i < k ==> r[i] == q[i];
    assert forall i :: k <= i < |r| ==> r[i] == q[i + 1];
    forall x | x in Elems(IdsOf(q)) - {q[k].id} ensures x in Elems(IdsOf(r)) {
      var i :| 0 <= i < |q| && IdsOf(q)[i] == x;
      if i < k {
        assert IdsOf(r)[i] == x;
      } else {
        assert i != k;
        assert IdsOf(r)[i - 1] == x;
      }
    }
    forall x | x in Elems(IdsOf(r)) ensures x in Elems(IdsOf(q)) - {q[k].id} {
      var i :| 0 <= i < |r| && IdsOf(r)[i] == x;
      var j := if i < k then i else i + 1;
      assert IdsOf(q)[j] == x && j != k;
      assert IdsOf(q)[k] == q[k].id;
    }
    forall i, j | 0 <= i < j < |r| ensures IdsOf(r)[i] != IdsOf(r)[j] {
      var i' := if i < k then i else i + 1;
      var j' := if j < k then j else j + 1;
      assert IdsOf(q)[i'] == IdsOf(r)[i] && IdsOf(q)[j'] == IdsOf(r)[j];
    }
  }

  /** What polling has established so far: `taken` came off `orig` best first,
      `rest` is what is left, and no id is in both. */
  ghost predicate Polled(s: Scoring, orig: seq<Item>, taken: seq<Item>, rest: seq<Item>)
    requires ScoringOk(s)
  {
    (forall it :: it in taken ==> Rateable(it))
    && (forall it :: it in rest ==> Rateable(it))
    && multiset(taken) + multiset(rest) == multiset(orig)
    && Distinct(IdsOf(taken)) && Distinct(IdsOf(rest))
    && Elems(IdsOf(taken)) * Elems(IdsOf(rest)) == {}
    && NonIncreasing(s, taken)
    && forall i, o :: 0 <= i < |taken| && o in rest ==> Rating(s, o) <= Rating(s, taken[i])
  }

  /** One poll keeps the ids of `taken` and `rest` distinct and apart. */
  lemma PollStepIds(taken: seq<Item>, rest: seq<Item>, k: int)
    requires 0 <= k < |rest|
    requires Distinct(IdsOf(taken)) && Distinct(IdsOf(rest))
    requires Elems(IdsOf(taken)) * Elems(IdsOf(rest)) == {}
    ensures Distinct(IdsOf(taken + [rest[k]])) && Distinct(IdsOf(RemoveAt(rest, k)))
    ensures Elems(IdsOf(taken + [rest[k]])) * Elems(IdsOf(RemoveAt(rest, k))) == {}
  {
    var head := rest[k];
    RemoveAtIds(rest, k);
    assert head.id in Elems(IdsOf(rest)) by {
      assert IdsOf(rest)[k] == head.id;
    }
    assert head.id !in Elems(IdsOf(taken)) by {
      assert head.id !in Elems(IdsOf(taken)) * Elems(IdsOf(rest));
    }
    assert IdsOf(taken + [head]) == IdsOf(taken) + [head.id];
    ElemsSnoc(IdsOf(taken), head.id);
    DistinctSnoc(IdsOf(taken), head.id);
  }

  /** One poll keeps `taken` best first and ahead of everything left. */
  lemma PollStepRatings(s: Scoring, taken: seq<Item>, rest: seq<Item>, k: int)
    requires ScoringOk(s) && 0 <= k < |rest|
    requires forall it :: it in taken ==> Rateable(it)
    requires forall it :: it in rest ==> Rateable(it)
    requires NonIncreasing(s, taken)
    requires forall i, o :: 0 <= i < |taken| && o in rest ==> Rating(s, o) <= Rating(s, taken[i])
    requires forall j :: 0 <= j < |rest| ==> Rating(s, rest[j]) <= Rating(s, rest[k])
    ensures forall it :: it in taken + [rest[k]] ==> Rateable(it)
    ensures NonIncreasing(s, taken + [rest[k]])
    ensures forall i, o :: 0 <= i < |taken| + 1 && o in RemoveAt(rest, k) ==> Rating(s, o) <= Rating(s, (taken + [rest[k]])[i])
  {
    var head := rest[k];
    var taken' := taken + [head];
    var rest' := RemoveAt(rest, k);
    assert forall i :: 0 <= i < |taken| ==> taken'[i] == taken[i];
    assert forall o :: o in rest' ==> o in rest by {
      RemoveAtMembers(rest, k);
    }
    forall o | o in rest' ensures Rating(s, o) <= Rating(s, head) {
      var j :| 0 <= j < |rest| && rest[j] == o;
    }
  }

  lemma RemoveAtMembers(q: seq<Item>, k: int)
    requires 0 <= k < |q|
    ensures forall o :: o in RemoveAt(q, k) ==> o in q
  {
    assert forall o :: o in multiset(RemoveAt(q, k)) ==> o in multiset(q);
  }

  /** One poll: moving the best-rated remaining item to the end of `taken`
      keeps every fact of Polled. */
  lemma PollStep(s: Scoring, orig: seq<Item>, taken: seq<Item>, rest: seq<Item>, k: int)
    requires ScoringOk(s) && Polled(s, orig, taken, rest)
    requires 0 <= k < |rest|
    requires forall j :: 0 <= j < |rest| ==> Rating(s, rest[j]) <= Rating(s, rest[k])
    ensures Polled(s, orig, taken + [rest[k]], RemoveAt(rest, k))
  {
    PollStepIds(taken, rest, k);
    PollStepRatings(s, taken, rest, k);
    RemoveAtMembers(rest, k);
    assert multiset(taken + [rest[k]]) == multiset(taken) + multiset{rest[k]};
  }

  /** One poll(): the best-rated item left comes off the queue. */
  method PollOne(s: Scoring, ghost q: seq<Item>, res: seq<int>, ghost taken: seq<Item>, rest: seq<Item>)
    returns (res': seq<int>, ghost taken': seq<Item>, rest': seq<Item>)
    requires ScoringOk(s) && rest != [] && res == IdsOf(taken) && Polled(s, q, taken, rest)
    ensures res' == IdsOf(taken') && Polled(s, q, taken', rest')
    ensures |res'| == |res| + 1 && |rest'| == |rest| - 1
  {
    var k := MaxIndex(s, rest);
    PollStep(s, q, taken, rest, k);
    assert IdsOf(taken + [rest[k]]) == IdsOf(taken) + [rest[k].id];
    res' := res + [rest[k].id];
    taken' := taken + [rest[k]];
    rest' := RemoveAt(rest, k);
  }

  /** The polling loop of recall(x), on the queue's contents. */
  method PollBest(s: Scoring, q: seq<Item>, x: int) returns (res: seq<int>, ghost taken: seq<Item>, rest: seq<Item>)
    requires ScoringOk(s) && Distinct(IdsOf(q)) && forall it :: it in q ==> Rateable(it)
    ensures |res| == if x <= 0 then 0 else if x < |q| then x else |q|
    ensures res == IdsOf(taken)
    ensures Polled(s, q, taken, rest)
  {
    res, taken, rest := [], [], q;
    var n := x;
    while n > 0 && rest != []
      invariant n <= x && |res| == if x <= 0 then 0 else x - n
      invariant x > 0 ==> n >= 0
      invariant |res| + |rest| == |q|
      invariant res == IdsOf(taken)
      invariant Polled(s, q, taken, rest)
      decreases |rest|
    {
      res, taken, rest := PollOne(s, q, res, taken, rest);
      n := n - 1;
    }
  }

  class RecallService {
    const scoring: Scoring
    /** The priority queue, as the bag of items it holds. */
    var queue: seq<Item>

    ghost predicate Valid()
      reads this
    {
      ScoringOk(scoring)
      && (forall it :: it in queue ==> Rateable(it))
      && Distinct(IdsOf(queue))
    }

    /** A service with the given tuning and an empty queue, before loadQueue. */
    constructor Create(s: Scoring)
      requires ScoringOk(s)
      ensures Valid() && scoring == s && queue == []
    {
      scoring := s;
      queue := [];
    }

    /** loadQueue: the constructor's only step; fails (throws) exactly when the
        table read failed, and otherwise queues every item read. */
    method LoadQueue(list: Option<seq<Item>>) returns (ok: bool)
      requires Valid() && queue == []
      requires list.Some? ==> Distinct(IdsOf(list.value)) && forall it :: it in list.value ==> Rateable(it)
      modifies this`queue
      ensures ok <==> list.Some?
      ensures queue == if ok then list.value else []
      ensures Valid()
    {
      if list.None? {
        return false;
      }
      queue := list.value;
      ok := true;
    }

    /** recall(x): polls the queue while x-- > 0 and it is not empty. The ids
        come out best-rated first, each at most once, and every polled item
        rates at least as high as every item left in the queue. */
    method Recall(x: int) returns (res: seq<int>, ghost taken: seq<Item>)
      requires Valid()
      modifies this`queue
      ensures Valid()
      ensures |res| == if x <= 0 then 0 else if x < |old(queue)| then x else |old(queue)|
      ensures res == IdsOf(taken) && Distinct(res)
      ensures multiset(taken) + multiset(queue) == multiset(old(queue))
      ensures forall it :: it in taken ==> Rateable(it)
      ensures NonIncreasing(scoring, taken)
      ensures forall i, o :: 0 <= i < |taken| && o in queue ==> Rating(scoring, o) <= Rating(scoring, taken[i])
    {
      res, taken, queue := PollBest(scoring, queue, x);
    }
  }
}
