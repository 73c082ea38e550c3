/**
Conservation over whole runs of the outbox: nothing accepted is lost, duplicated or reordered
by queueing, flushing with arbitrary relay answers, and marking as delivered.
*/
module OutboxRuns {
  import opened Prelude
  import opened Outbox

  datatype Op<M> =
    | Queue(recipient: string, data: M)
    | Flush(stored: Answers)
    | MarkDelivered(recipient: string, count: nat)

  /** The outbox with its history: how many messages were accepted, and for each recipient
      which were accepted and which have left the queue. */
  datatype Ledger<M> = Ledger(
    box: OutboxState<M>,
    acceptedCount: nat,
    accepted: map<string, seq<M>>,
    gone: map<string, seq<M>>)

  function LogOf<M>(log: map<string, seq<M>>, recipient: string): seq<M> {
    if recipient in log then log[recipient] else []
  }

  function Messages<M>(queue: seq<Queued<M>>): (ms: seq<M>)
    ensures |ms| == |queue|
  {
    seq(|queue|, i requires 0 <= i < |queue| => queue[i].message)
  }

  ghost function Step<M>(l: Ledger<M>, op: Op<M>, max: nat): Ledger<M> {
    match op
    case Queue(r, data) =>
      var box := AfterQueue(l.box, r, data, max);
      if |QueueOf(l.box.pending, r)| >= max then l.(box := box)
      else Ledger(box, l.acceptedCount + 1, l.accepted[r := LogOf(l.accepted, r) + [data]], l.gone)
    case Flush(stored) =>
      l.(box := AfterFlush(l.box, stored),
         gone := map r | r in l.gone.Keys + l.box.pending.Keys ::
           LogOf(l.gone, r) + Messages(Stored(QueueOf(l.box.pending, r), r, stored)))
    case MarkDelivered(r, count) =>
      var queue := QueueOf(l.box.pending, r);
      var drained := if count < |queue| then count else |queue|;
      l.(box := AfterMarkDelivered(l.box, r, count),
         gone := l.gone[r := LogOf(l.gone, r) + Messages(queue[..drained])])
  }

  ghost function Run<M>(ops: seq<Op<M>>, max: nat): Ledger<M> {
    if |ops| == 0 then Ledger(OutboxState(map[], 0), 0, map[], map[])
    else Step(Run(ops[..|ops| - 1], max), ops[|ops| - 1], max)
  }

  // ----- Order-preserving selections -----

  /** `a` is what remains of `b` after leaving out some elements. */
  ghost predicate Subsequence<M>(a: seq<M>, b: seq<M>) {
    if |a| == 0 then true
    else if |b| == 0 then false
    else
      || (a[|a| - 1] == b[|b| - 1] && Subsequence(a[..|a| - 1], b[..|b| - 1]))
      || Subsequence(a, b[..|b| - 1])
  }

  lemma {:induction false} SubsequenceReflexive<M>(a: seq<M>)
    ensures Subsequence(a, a)
  {
    if |a| > 0 {
      SubsequenceReflexive(a[..|a| - 1]);
    }
  }

  lemma {:induction false} SubsequenceTransitive<M>(a: seq<M>, b: seq<M>, c: seq<M>)
    requires Subsequence(a, b) && Subsequence(b, c)
    ensures Subsequence(a, c)
    decreases |b| + |c|
  {
    if |a| > 0 {
      var b', c' := b[..|b| - 1], c[..|c| - 1];
      if b[|b| - 1] == c[|c| - 1] && Subsequence(b', c') {
        if a[|a| - 1] == b[|b| - 1] && Subsequence(a[..|a| - 1], b') {
          SubsequenceTransitive(a[..|a| - 1], b', c');
        } else {
          SubsequenceTransitive(a, b', c');
        }
      } else {
        SubsequenceTransitive(a, b, c');
      }
    }
  }

  lemma {:induction false} SubsequenceAppend<M>(a: seq<M>, b: seq<M>, x: M)
    requires Subsequence(a, b)
    ensures Subsequence(a + [x], b + [x]) && Subsequence(a, b + [x])
  {
    assert (a + [x])[..|a|] == a && (b + [x])[..|b|] == b;
  }

  lemma {:induction false} SuffixIsSubsequence<M>(a: seq<M>, n: nat)
    requires n <= |a|
    ensures Subsequence(a[n..], a)
  {
    if n < |a| {
      SuffixIsSubsequence(a[..|a| - 1], n);
      assert a[n..][..|a| - n - 1] == a[..|a| - 1][n..];
    }
  }

  // ----- One flush of one queue -----

  lemma {:induction false} MessagesAppend<M>(a: seq<Queued<M>>, b: seq<Queued<M>>)
    ensures Messages(a + b) == Messages(a) + Messages(b)
  {
  }

  lemma {:induction false} LastMessage<M>(queue: seq<Queued<M>>)
    requires |queue| > 0
    ensures Messages(queue) == Messages(queue[..|queue| - 1]) + [queue[|queue| - 1].message]
  {
  }

  /** The last message of a queue joins either the failed or the stored ones. */
  lemma {:induction false} FlushLast<M>(queue: seq<Queued<M>>, r: string, stored: Answers)
    requires |queue| > 0
    ensures
      var n := |queue| - 1;
      var failed := Messages(Failed(queue[..n], r, stored));
      var gone := Messages(Stored(queue[..n], r, stored));
      && Messages(Failed(queue, r, stored)) == (if stored(r, n) then failed else failed + [queue[n].message])
      && Messages(Stored(queue, r, stored)) == (if stored(r, n) then gone + [queue[n].message] else gone)
  {
    var n := |queue| - 1;
    var x := queue[n].(retryCount := queue[n].retryCount + 1);
    MessagesAppend(Failed(queue[..n], r, stored), [x]);
    MessagesAppend(Stored(queue[..n], r, stored), [queue[n]]);
    assert Messages([x]) == Messages([queue[n]]) == [queue[n].message];
    assert Failed(queue[..n], r, stored) + [] == Failed(queue[..n], r, stored);
    assert Stored(queue[..n], r, stored) + [] == Stored(queue[..n], r, stored);
  }

  /** A flush splits a queue: the failed messages stay in order, the stored ones leave, and
      every message does exactly one of the two. */
  lemma {:induction false} FlushSplits<M>(queue: seq<Queued<M>>, r: string, stored: Answers)
    ensures |Failed(queue, r, stored)| + |Stored(queue, r, stored)| == |queue|
    ensures Subsequence(Messages(Failed(queue, r, stored)), Messages(queue))
    ensures multiset(Messages(queue)) ==
      multiset(Messages(Failed(queue, r, stored))) + multiset(Messages(Stored(queue, r, stored)))
  {
    FailedInOrder(queue, r, stored);
    FlushPartitions(queue, r, stored);
  }

  lemma {:induction false} FailedInOrder<M>(queue: seq<Queued<M>>, r: string, stored: Answers)
    ensures Subsequence(Messages(Failed(queue, r, stored)), Messages(queue))
  {
    if |queue| > 0 {
      var n := |queue| - 1;
      FailedInOrder(queue[..n], r, stored);
      hide Failed, Stored, Subsequence;
      FlushLast(queue, r, stored);
      LastMessage(queue);
      SubsequenceAppend(Messages(Failed(queue[..n], r, stored)), Messages(queue[..n]), queue[n].message);
    }
  }

  lemma {:induction false} FlushPartitions<M>(queue: seq<Queued<M>>, r: string, stored: Answers)
    ensures |Failed(queue, r, stored)| + |Stored(queue, r, stored)| == |queue|
    ensures multiset(Messages(queue)) ==
      multiset(Messages(Failed(queue, r, stored))) + multiset(Messages(Stored(queue, r, stored)))
  {
    if |queue| > 0 {
      FlushPartitions(queue[..|queue| - 1], r, stored);
      hide Failed, Stored, Messages;
      FlushLast(queue, r, stored);
      LastMessage(queue);
      assert |Messages(Failed(queue, r, stored))| + |Messages(Stored(queue, r, stored))| == |queue|;
    }
  }

  /** Each failed message is found, in order, with exactly one more retry. */
  lemma {:induction false} FailedPosition<M>(queue: seq<Queued<M>>, r: string, stored: Answers, i: nat)
    requires i < |queue| && !stored(r, i)
    ensures
      var k := |Failed(queue[..i], r, stored)|;
      k < |Failed(queue, r, stored)|
      && Failed(queue, r, stored)[k] == queue[i].(retryCount := queue[i].retryCount + 1)
  {
    var n := |queue| - 1;
    if i < n {
      assert queue[..n][..i] == queue[..i];
      FailedPosition(queue[..n], r, stored, i);
    }
  }

  /** Each stored message is found, in order and unchanged, among those that left. */
  lemma {:induction false} StoredPosition<M>(queue: seq<Queued<M>>, r: string, stored: Answers, i: nat)
    requires i < |queue| && stored(r, i)
    ensures
      var k := |Stored(queue[..i], r, stored)|;
      k < |Stored(queue, r, stored)| && Stored(queue, r, stored)[k] == queue[i]
  {
    var n := |queue| - 1;
    if i < n {
      assert queue[..n][..i] == queue[..i];
      StoredPosition(queue[..n], r, stored, i);
    }
  }

  function Failures(r: string, stored: Answers, n: nat): nat {
    if n == 0 then 0 else Failures(r, stored, n - 1) + if stored(r, n - 1) then 0 else 1
  }

  lemma {:induction false} FailuresCounted<M>(queue: seq<Queued<M>>, r: string, stored: Answers)
    ensures |Failed(queue, r, stored)| == Failures(r, stored, |queue|)
    ensures |Stored(queue, r, stored)| == |queue| - Failures(r, stored, |queue|)
  {
    if |queue| > 0 {
      FailuresCounted(queue[..|queue| - 1], r, stored);
    }
  }

  /** After a flush a recipient has a queue exactly if the relay refused one of its messages;
      the queue then holds one entry for each refusal. */
  lemma {:induction false} FlushLeaves<M>(pending: map<string, seq<Queued<M>>>, r: string, stored: Answers)
    ensures r in AfterFlushQueues(pending, stored)
      <==> exists i: nat :: i < |QueueOf(pending, r)| && !stored(r, i)
    ensures |QueueOf(AfterFlushQueues(pending, stored), r)| == Failures(r, stored, |QueueOf(pending, r)|)
  {
    var queue := QueueOf(pending, r);
    FailuresCounted(queue, r, stored);
    if i: nat :| i < |queue| && !stored(r, i) {
      FailedPosition(queue, r, stored, i);
    }
    if Failures(r, stored, |queue|) > 0 {
      SomeFailure(r, stored, |queue|);
    }
  }

  lemma {:induction false} SomeFailure(r: string, stored: Answers, n: nat)
    requires Failures(r, stored, n) > 0
    ensures exists i: nat :: i < n && !stored(r, i)
  {
    if stored(r, n - 1) {
      SomeFailure(r, stored, n - 1);
    }
  }

  /** Marking takes messages from the front of one queue, at most all of it, and counts them. */
  lemma {:induction false} MarkTakesFront<M>(s: OutboxState<M>, r: string, count: nat, x: string, k: nat)
    ensures
      var before, after := QueueOf(s.pending, x), AfterMarkDelivered(s, r, count);
      var gone := if x != r then 0 else if count < |before| then count else |before|;
      && |QueueOf(after.pending, x)| == |before| - gone
      && (k < |before| - gone ==> QueueOf(after.pending, x)[k] == before[gone + k])
      && (x == r ==> after.deliveredCount == s.deliveredCount + gone)
      && after.pending.Keys == s.pending.Keys
  {
  }

  // ----- Totals -----

  ghost function Lengths<M>(pending: map<string, seq<Queued<M>>>): string -> nat {
    r => |QueueOf(pending, r)|
  }

  ghost function Total<M>(pending: map<string, seq<Queued<M>>>): nat {
    SumOver(pending.Keys, Lengths(pending))
  }

  lemma {:induction false} TotalUpdate<M>(pending: map<string, seq<Queued<M>>>, r: string, queue: seq<Queued<M>>)
    ensures Total(pending[r := queue]) == Total(pending) - |QueueOf(pending, r)| + |queue|
  {
    var after := pending[r := queue];
    SumZeros(pending.Keys, after.Keys, Lengths(pending));
    SumRemove(after.Keys, Lengths(after), r);
    SumRemove(after.Keys, Lengths(pending), r);
    SumSame(after.Keys - {r}, Lengths(after), Lengths(pending));
  }

  lemma {:induction false} TotalFlush<M>(s: OutboxState<M>, stored: Answers)
    ensures Total(s.pending) ==
      Total(AfterFlushQueues(s.pending, stored)) + SumOver(s.pending.Keys, StoredCount(s.pending, stored))
  {
    var after := AfterFlushQueues(s.pending, stored);
    forall r | r in s.pending.Keys
      ensures Lengths(s.pending)(r) == FailedCount(s.pending, stored)(r) + StoredCount(s.pending, stored)(r)
      ensures Lengths(after)(r) == FailedCount(s.pending, stored)(r)
    {
      FlushSplits(s.pending[r], r, stored);
    }
    SumAdd(s.pending.Keys, Lengths(s.pending), FailedCount(s.pending, stored), StoredCount(s.pending, stored));
    SumSame(s.pending.Keys, Lengths(after), FailedCount(s.pending, stored));
    SumZeros(after.Keys, s.pending.Keys, Lengths(after));
  }

  // ----- The invariant -----

  ghost predicate RecipientOk<M>(l: Ledger<M>, r: string, max: nat) {
    var queue := QueueOf(l.box.pending, r);
    && |queue| <= max
    && Subsequence(Messages(queue), LogOf(l.accepted, r))
    && multiset(LogOf(l.accepted, r)) == multiset(LogOf(l.gone, r)) + multiset(Messages(queue))
  }

  ghost predicate Conserved<M>(l: Ledger<M>, max: nat) {
    && l.acceptedCount == l.box.deliveredCount + Total(l.box.pending)
    && forall r :: RecipientOk(l, r, max)
  }

  lemma {:induction false} StepQueue<M>(l: Ledger<M>, r: string, data: M, max: nat)
    requires Conserved(l, max)
    ensures Conserved(Step(l, Queue(r, data), max), max)
  {
    var l' := Step(l, Queue(r, data), max);
    TotalUpdate(l.box.pending, r, QueueOf(l'.box.pending, r));
    hide Subsequence, Messages, SumOver, RecipientOk;
    forall x ensures RecipientOk(l', x, max) {
      assert RecipientOk(l, x, max);
      if x == r {
        QueueAtRecipient(l, r, data, max);
      } else {
        QueueElsewhere(l, r, data, max, x);
      }
    }
  }

  lemma {:induction false} QueueElsewhere<M>(l: Ledger<M>, r: string, data: M, max: nat, x: string)
    requires RecipientOk(l, x, max) && x != r
    ensures RecipientOk(Step(l, Queue(r, data), max), x, max)
  {
    hide Subsequence, Messages;
  }

  lemma {:induction false} QueueAtRecipient<M>(l: Ledger<M>, r: string, data: M, max: nat)
    requires RecipientOk(l, r, max)
    ensures RecipientOk(Step(l, Queue(r, data), max), r, max)
  {
    hide Step, Subsequence, Messages;
    var queue := QueueOf(l.box.pending, r);
    QueueTakes(l, r, data, max);
    if |queue| < max {
      SubsequenceAppend(Messages(queue), LogOf(l.accepted, r), data);
    } else {
      assert Messages(queue) + [] == Messages(queue) && LogOf(l.accepted, r) + [] == LogOf(l.accepted, r);
    }
    assert |Messages(QueueOf(Step(l, Queue(r, data), max).box.pending, r))| <= max;
  }

  lemma {:induction false} QueueTakes<M>(l: Ledger<M>, r: string, data: M, max: nat)
    ensures
      var l' := Step(l, Queue(r, data), max);
      var queue := QueueOf(l.box.pending, r);
      var more := if |queue| < max then [data] else [];
      && Messages(QueueOf(l'.box.pending, r)) == Messages(queue) + more
      && LogOf(l'.accepted, r) == LogOf(l.accepted, r) + more
      && LogOf(l'.gone, r) == LogOf(l.gone, r)
  {
    MessagesAppend(QueueOf(l.box.pending, r), [Queued.Queued(data, r, 0)]);
    assert Messages([Queued.Queued(data, r, 0)]) == [data];
  }

  lemma {:induction false} StepFlush<M>(l: Ledger<M>, stored: Answers, max: nat)
    requires Conserved(l, max)
    ensures Conserved(Step(l, Flush(stored), max), max)
  {
    var l' := Step(l, Flush(stored), max);
    TotalFlush(l.box, stored);
    forall x ensures RecipientOk(l', x, max) {
      FlushOneRecipient(l, stored, max, x);
    }
  }

  lemma {:induction false} FlushOneRecipient<M>(l: Ledger<M>, stored: Answers, max: nat, x: string)
    requires RecipientOk(l, x, max)
    ensures RecipientOk(Step(l, Flush(stored), max), x, max)
  {
    hide Step, Subsequence, Failed, Stored, Messages;
    var queue := QueueOf(l.box.pending, x);
    FlushSplits(queue, x, stored);
    FlushLogs(l, stored, max, x);
    SubsequenceTransitive(Messages(Failed(queue, x, stored)), Messages(queue), LogOf(l.accepted, x));
  }

  lemma {:induction false} FlushLogs<M>(l: Ledger<M>, stored: Answers, max: nat, x: string)
    ensures
      var l' := Step(l, Flush(stored), max);
      var queue := QueueOf(l.box.pending, x);
      && QueueOf(l'.box.pending, x) == Failed(queue, x, stored)
      && LogOf(l'.accepted, x) == LogOf(l.accepted, x)
      && LogOf(l'.gone, x) == LogOf(l.gone, x) + Messages(Stored(queue, x, stored))
  {
    hide SumOver;
  }

  lemma {:induction false} StepMark<M>(l: Ledger<M>, r: string, count: nat, max: nat)
    requires Conserved(l, max)
    ensures Conserved(Step(l, MarkDelivered(r, count), max), max)
  {
    var l' := Step(l, MarkDelivered(r, count), max);
    if r in l.box.pending {
      TotalUpdate(l.box.pending, r, QueueOf(l'.box.pending, r));
    }
    forall x ensures RecipientOk(l', x, max) {
      assert RecipientOk(l, x, max);
      if x == r {
        MarkAtRecipient(l, r, count, max);
      }
    }
  }

  lemma {:induction false} MarkAtRecipient<M>(l: Ledger<M>, r: string, count: nat, max: nat)
    requires RecipientOk(l, r, max)
    ensures RecipientOk(Step(l, MarkDelivered(r, count), max), r, max)
  {
    hide Step, Subsequence;
    var queue := QueueOf(l.box.pending, r);
    var drained := if count < |queue| then count else |queue|;
    MarkLeaves(l, r, count, max);
    DropFront(queue, drained);
    SubsequenceTransitive(Messages(queue[drained..]), Messages(queue), LogOf(l.accepted, r));
  }

  lemma {:induction false} MarkLeaves<M>(l: Ledger<M>, r: string, count: nat, max: nat)
    ensures
      var l' := Step(l, MarkDelivered(r, count), max);
      var queue := QueueOf(l.box.pending, r);
      var drained := if count < |queue| then count else |queue|;
      && QueueOf(l'.box.pending, r) == queue[drained..]
      && LogOf(l'.gone, r) == LogOf(l.gone, r) + Messages(queue[..drained])
      && l'.accepted == l.accepted
  {
  }

  lemma {:induction false} DropFront<M>(queue: seq<Queued<M>>, n: nat)
    requires n <= |queue|
    ensures multiset(Messages(queue)) == multiset(Messages(queue[..n])) + multiset(Messages(queue[n..]))
    ensures Subsequence(Messages(queue[n..]), Messages(queue))
  {
    hide Subsequence;
    MessagesAppend(queue[..n], queue[n..]);
    assert queue == queue[..n] + queue[n..];
    assert Messages(queue[n..]) == Messages(queue)[n..];
    SuffixIsSubsequence(Messages(queue), n);
  }

  /** After every run of queueing, flushing and marking: accepted messages are delivered or
      pending; for each recipient, what was accepted is what left plus what waits, and what
      waits is in the order of acceptance; no queue is longer than the limit. */
  lemma {:induction false} RunConserves<M>(ops: seq<Op<M>>, max: nat)
    ensures Conserved(Run(ops, max), max)
  {
    if |ops| > 0 {
      RunConserves(ops[..|ops| - 1], max);
      var l := Run(ops[..|ops| - 1], max);
      match ops[|ops| - 1]
      case Queue(r, data) => StepQueue(l, r, data, max);
      case Flush(stored) => StepFlush(l, stored, max);
      case MarkDelivered(r, count) => StepMark(l, r, count, max);
    }
  }
}
