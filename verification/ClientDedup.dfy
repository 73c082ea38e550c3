/**
The bounded set of seen ids: delivery is at most once, and exactly once, precisely as long as
ids are remembered when their messages come again.
*/
module ClientDedup {
  import opened Prelude
  import opened Client
  import opened ClientRuns

  // ----- The bound -----

  lemma {:induction false} SeenStaysBounded(s: ClientState, raw: Raw, pruned: set<MessageId>)
    requires |s.seen| <= 500
    requires raw.Parsed? ==> PruneAllowed(s.seen, raw.envelope.id, pruned)
    ensures |Process(s, raw, pruned).seen| == if !IsFresh(s, raw) then |s.seen| else if |s.seen| < 500 then |s.seen| + 1
        else 251
  {
    ProcessBuffers(s, raw, pruned);
    if raw.Parsed? && raw.envelope.id !in s.seen {
      var all := s.seen + {raw.envelope.id};
      if |all| > SEEN_LIMIT {
        assert |all - pruned| == |all| - |pruned| by {
          assert all == (all - pruned) + pruned;
        }
      }
    }
  }

  /** However prunings choose, the seen-set never holds more than 500 ids after a message. */
  lemma {:induction false} SeenBounded(raws: seq<Raw>, choices: seq<set<MessageId>>)
    requires ChoicesAllowed(EmptyClient(), raws, choices)
    ensures |ProcessAll(EmptyClient(), raws, choices).seen| <= 500
    decreases |raws|
  {
    if |raws| > 0 {
      var n := |raws| - 1;
      SeenBounded(raws[..n], choices[..n]);
      SeenStaysBounded(ProcessAll(EmptyClient(), raws[..n], choices[..n]), raws[n], choices[n]);
    }
  }

  /** A message repeated at once is sure to be dropped exactly when fewer than 500 ids were
      remembered: at 500, the pruning may forget the very id just added. */
  lemma {:induction false} RepeatIsDroppedIff(s: ClientState, raw: Raw)
    requires IsFresh(s, raw) && |s.seen| <= 500
    ensures (forall pruned :: PruneAllowed(s.seen, raw.envelope.id, pruned) ==>
        Delivery(Process(s, raw, pruned), raw).None? && raw.envelope.id in Process(s, raw, pruned).seen)
      <==> |s.seen| < 500
  {
    var id := raw.envelope.id;
    forall pruned ensures id in Process(s, raw, pruned).seen <==> id in Remember(s.seen, id, pruned) {
      ProcessBuffers(s, raw, pruned);
    }
    assert |s.seen + {id}| == |s.seen| + 1;
    if |s.seen| == SEEN_LIMIT {
      SubsetExists(s.seen, PRUNE_COUNT - 1);
      var t: set<MessageId> :| t <= s.seen && |t| == PRUNE_COUNT - 1;
      var pruned := t + {id};
      assert PruneAllowed(s.seen, id, pruned);
      assert id !in Process(s, raw, pruned).seen;
    }
  }

  // ----- What is remembered -----

  ghost function RawIds(raws: seq<Raw>): set<MessageId> {
    set i | 0 <= i < |raws| && raws[i].Parsed? :: raws[i].envelope.id
  }

  /** Whenever a message with one of `ids` came again, its id was still remembered. */
  ghost predicate Retained(ids: set<MessageId>, raws: seq<Raw>, choices: seq<set<MessageId>>)
    requires |raws| == |choices|
    decreases |raws|
  {
    |raws| > 0 ==>
      var n := |raws| - 1;
      && Retained(ids, raws[..n], choices[..n])
      && (raws[n].Parsed? && raws[n].envelope.id in ids && raws[n].envelope.id in RawIds(raws[..n]) ==>
            raws[n].envelope.id in ProcessAll(EmptyClient(), raws[..n], choices[..n]).seen)
  }

  /** What is remembered has arrived, and up to 500 ids all that arrived is remembered. */
  lemma {:induction false} SeenHasArrived(raws: seq<Raw>, choices: seq<set<MessageId>>)
    requires |raws| == |choices|
    ensures ProcessAll(EmptyClient(), raws, choices).seen <= RawIds(raws)
    ensures |RawIds(raws)| <= SEEN_LIMIT ==> ProcessAll(EmptyClient(), raws, choices).seen == RawIds(raws)
    decreases |raws|
  {
    hide Process;
    if |raws| > 0 {
      var n := |raws| - 1;
      IdsOfLast(raws);
      SubsetSize(RawIds(raws[..n]), RawIds(raws));
      SeenHasArrived(raws[..n], choices[..n]);
      hide RawIds;
      ProcessBuffers(ProcessAll(EmptyClient(), raws[..n], choices[..n]), raws[n], choices[n]);
    }
  }

  lemma {:induction false} IdsOfLast(raws: seq<Raw>)
    requires |raws| > 0
    ensures
      var n := |raws| - 1;
      RawIds(raws) == RawIds(raws[..n]) + (if raws[n].Parsed? then {raws[n].envelope.id} else {})
  {
    var n := |raws| - 1;
    forall x | x in RawIds(raws)
      ensures x in RawIds(raws[..n]) + (if raws[n].Parsed? then {raws[n].envelope.id} else {})
    {
      var i :| 0 <= i < |raws| && raws[i].Parsed? && raws[i].envelope.id == x;
      if i < n {
        assert raws[..n][i] == raws[i];
      }
    }
  }

  lemma {:induction false} SubsetSize(a: set<MessageId>, b: set<MessageId>)
    requires a <= b
    ensures |a| <= |b|
  {
    assert b == a + (b - a);
  }

  lemma {:induction false} FewIdsAreRetained(ids: set<MessageId>, raws: seq<Raw>, choices: seq<set<MessageId>>)
    requires |raws| == |choices| && |RawIds(raws)| <= SEEN_LIMIT
    ensures Retained(ids, raws, choices)
    decreases |raws|
  {
    hide ProcessAll, RawIds;
    if |raws| > 0 {
      var n := |raws| - 1;
      IdsOfLast(raws);
      SubsetSize(RawIds(raws[..n]), RawIds(raws));
      SeenHasArrived(raws[..n], choices[..n]);
      FewIdsAreRetained(ids, raws[..n], choices[..n]);
    }
  }

  lemma {:induction false} RetainedFewer(ids: set<MessageId>, more: set<MessageId>, raws: seq<Raw>,
      choices: seq<set<MessageId>>)
    requires |raws| == |choices| && ids <= more && Retained(more, raws, choices)
    ensures Retained(ids, raws, choices)
    decreases |raws|
  {
    hide ProcessAll, RawIds;
    if |raws| > 0 {
      RetainedFewer(ids, more, raws[..|raws| - 1], choices[..|raws| - 1]);
    }
  }

  // ----- At most once -----

  ghost predicate HeaderHeld(s: ClientState, f: string) {
    f in s.chunkBuffer && s.chunkBuffer[f].header.Some?
  }

  ghost function HeldId(s: ClientState, f: string): MessageId
    requires HeaderHeld(s, f)
  {
    s.chunkBuffer[f].header.value.id
  }

  /** Among the delivered messages and the headers still waiting for chunks, at most one has
      the id `x`, and none before `x` has arrived. */
  ghost predicate AtMostOne(s: ClientState, x: MessageId, arrived: bool) {
    && (forall i, j :: 0 <= i < j < |s.inbox| && s.inbox[i].id == x ==> s.inbox[j].id != x)
    && (forall f, i :: HeaderHeld(s, f) && HeldId(s, f) == x && 0 <= i < |s.inbox| ==> s.inbox[i].id != x)
    && (forall f, g :: HeaderHeld(s, f) && HeaderHeld(s, g) && f != g && HeldId(s, f) == x ==> HeldId(s, g) != x)
    && (!arrived ==> forall i :: 0 <= i < |s.inbox| ==> s.inbox[i].id != x)
    && (!arrived ==> forall f :: HeaderHeld(s, f) ==> HeldId(s, f) != x)
  }

  /** What is delivered carries the id of the message just processed, or of a held header. */
  lemma {:induction false} DeliveryId(s: ClientState, raw: Raw)
    requires Delivery(s, raw).Some?
    ensures raw.Parsed? && raw.envelope.id !in s.seen
    ensures
      var id := Delivery(s, raw).value.id;
      id == raw.envelope.id ||
      (IsPart(raw.envelope) && HeaderHeld(s, PartOf(raw.envelope)) && id == HeldId(s, PartOf(raw.envelope))
        && BufferAfter(s, raw) == s.chunkBuffer - {PartOf(raw.envelope)})
  {
    hide Assemble;
  }

  /** A header held afterwards was held before under the same file, or is the new message. */
  lemma {:induction false} HeldAfter(s: ClientState, raw: Raw, t: ClientState)
    requires t.chunkBuffer == BufferAfter(s, raw)
    ensures forall f :: HeaderHeld(t, f) ==>
      || (HeaderHeld(s, f) && HeldId(t, f) == HeldId(s, f))
      || (IsFresh(s, raw) && IsPart(raw.envelope) && f == PartOf(raw.envelope) && HeldId(t, f) == raw.envelope.id
          && Delivery(s, raw).None?)
  {
    hide Assemble;
  }

  lemma {:induction false} AtMostOneKept(s: ClientState, raw: Raw, pruned: set<MessageId>, x: MessageId, arrived: bool)
    requires AtMostOne(s, x, arrived)
    requires raw.Parsed? && raw.envelope.id == x && arrived ==> x in s.seen
    ensures AtMostOne(Process(s, raw, pruned), x, arrived || (raw.Parsed? && raw.envelope.id == x))
  {
    hide Process, Delivery, BufferAfter, PartOf;
    var t := Process(s, raw, pruned);
    ProcessBuffers(s, raw, pruned);
    ProcessInbox(s, raw, pruned);
    HeldAfter(s, raw, t);
    if Delivery(s, raw).Some? {
      DeliveryId(s, raw);
    }
  }

  lemma {:induction false} AtMostOneAfter(raws: seq<Raw>, choices: seq<set<MessageId>>, x: MessageId)
    requires |raws| == |choices| && Retained({x}, raws, choices)
    ensures AtMostOne(ProcessAll(EmptyClient(), raws, choices), x, x in RawIds(raws))
    decreases |raws|
  {
    hide Process, AtMostOne, RawIds;
    if |raws| == 0 {
      NothingYet(raws, x);
    } else {
      var n := |raws| - 1;
      IdsOfLast(raws);
      AtMostOneAfter(raws[..n], choices[..n], x);
      AtMostOneKept(ProcessAll(EmptyClient(), raws[..n], choices[..n]), raws[n], choices[n], x, x in RawIds(raws[..n]));
    }
  }

  lemma {:induction false} NothingYet(raws: seq<Raw>, x: MessageId)
    requires raws == []
    ensures AtMostOne(EmptyClient(), x, x in RawIds(raws))
  {
  }

  /** At most once, for any message at all: if its id was remembered whenever it came again,
      no two messages in the cumulative inbox have that id. */
  lemma {:induction false} AtMostOnce(raws: seq<Raw>, choices: seq<set<MessageId>>, x: MessageId, i: nat, j: nat)
    requires |raws| == |choices| && Retained({x}, raws, choices)
    requires i < j < |ProcessAll(EmptyClient(), raws, choices).inbox|
    ensures
      var inbox := ProcessAll(EmptyClient(), raws, choices).inbox;
      !(inbox[i].id == inbox[j].id == x)
  {
    hide ProcessAll;
    AtMostOneAfter(raws, choices, x);
  }

  ghost predicate AllDifferent(inbox: seq<CipherMessage>) {
    forall i, j :: 0 <= i < j < |inbox| ==> inbox[i].id != inbox[j].id
  }

  /** In particular no id occurs twice while fewer than 501 distinct ones arrive, whatever is
      repeated or reordered. */
  lemma {:induction false} NoneTwice(raws: seq<Raw>, choices: seq<set<MessageId>>)
    requires |raws| == |choices|
    requires Retained(RawIds(raws), raws, choices) || |RawIds(raws)| <= 500
    ensures AllDifferent(ProcessAll(EmptyClient(), raws, choices).inbox)
  {
    hide ProcessAll, RawIds, Retained;
    var inbox := ProcessAll(EmptyClient(), raws, choices).inbox;
    forall i, j | 0 <= i < j < |inbox| ensures inbox[i].id != inbox[j].id {
      var x := inbox[i].id;
      if |RawIds(raws)| <= SEEN_LIMIT {
        FewIdsAreRetained({x}, raws, choices);
      } else {
        RetainedOne(raws, choices, x);
      }
      AtMostOnce(raws, choices, x, i, j);
    }
  }

  lemma {:induction false} RetainedOne(raws: seq<Raw>, choices: seq<set<MessageId>>, x: MessageId)
    requires |raws| == |choices| && Retained(RawIds(raws), raws, choices)
    ensures Retained({x}, raws, choices)
  {
    if x in RawIds(raws) {
      RetainedFewer({x}, RawIds(raws), raws, choices);
    } else {
      NeverArrived(raws, choices, x);
    }
  }

  lemma {:induction false} NeverArrived(raws: seq<Raw>, choices: seq<set<MessageId>>, x: MessageId)
    requires |raws| == |choices| && x !in RawIds(raws)
    ensures Retained({x}, raws, choices)
    decreases |raws|
  {
    hide ProcessAll, RawIds;
    if |raws| > 0 {
      IdsOfLast(raws);
      NeverArrived(raws[..|raws| - 1], choices[..|raws| - 1], x);
    }
  }

  // ----- Exactly once -----

  /** A message that goes to the inbox on its own: readable, not a part of a file, not internal. */
  predicate IsOrdinary(e: Envelope) { e.plaintext.Some? && !IsPart(e) && !IsInternal(e) }

  ghost predicate IdIsOwn(e: Envelope, raws: seq<Raw>) {
    forall i :: 0 <= i < |raws| && raws[i].Parsed? && raws[i].envelope.id == e.id ==> raws[i] == Parsed(e)
  }

  /** Position `k` holds the only message whose id is one of `ids`. */
  ghost predicate OnlyAt(inbox: seq<CipherMessage>, ids: set<MessageId>, k: nat) {
    k < |inbox| && forall i :: 0 <= i < |inbox| ==> (inbox[i].id in ids <==> i == k)
  }

  /** The cumulative inbox holds `e` at one position, and its id nowhere else. */
  ghost predicate DeliveredOnce(inbox: seq<CipherMessage>, e: Envelope)
    requires e.plaintext.Some?
  {
    exists k: nat :: OnlyAt(inbox, {e.id}, k)
      && inbox[k] == CipherMessage(e.id, e.sender, e.msgType, e.plaintext.value.bytes)
  }

  function Copies(inbox: seq<CipherMessage>, x: MessageId): nat {
    if |inbox| == 0 then 0
    else Copies(inbox[..|inbox| - 1], x) + if inbox[|inbox| - 1].id == x then 1 else 0
  }

  /** How often `e` arrived while its id was not remembered. */
  ghost function Acceptances(e: Envelope, raws: seq<Raw>, choices: seq<set<MessageId>>): nat
    requires |raws| == |choices|
    decreases |raws|
  {
    if |raws| == 0 then 0
    else
      var n := |raws| - 1;
      var seen := ProcessAll(EmptyClient(), raws[..n], choices[..n]).seen;
      Acceptances(e, raws[..n], choices[..n]) + if raws[n] == Parsed(e) && e.id !in seen then 1 else 0
  }

  ghost predicate OnlyCopiesOf(e: Envelope, s: ClientState)
    requires e.plaintext.Some?
  {
    && (forall i :: 0 <= i < |s.inbox| && s.inbox[i].id == e.id ==> s.inbox[i] == Opened(e))
    && (forall f :: HeaderHeld(s, f) ==> HeldId(s, f) != e.id)
  }

  lemma {:induction false} OrdinaryDelivery(s: ClientState, e: Envelope)
    requires IsOrdinary(e)
    ensures Delivery(s, Parsed(e)) == if e.id in s.seen then None else Some(Opened(e))
  {
  }

  lemma {:induction false} DeliveryOfId(s: ClientState, raw: Raw, e: Envelope)
    requires IsOrdinary(e) && OnlyCopiesOf(e, s)
    requires raw.Parsed? && raw.envelope.id == e.id ==> raw == Parsed(e)
    ensures Delivery(s, raw).Some? && Delivery(s, raw).value.id == e.id <==> raw == Parsed(e) && e.id !in s.seen
    ensures Delivery(s, raw).Some? && Delivery(s, raw).value.id == e.id ==> Delivery(s, raw).value == Opened(e)
  {
    hide Delivery;
    OrdinaryDelivery(s, e);
    if Delivery(s, raw).Some? {
      DeliveryId(s, raw);
    }
  }

  lemma {:induction false} CopiesStep(s: ClientState, raw: Raw, pruned: set<MessageId>, e: Envelope)
    requires IsOrdinary(e) && OnlyCopiesOf(e, s)
    requires raw.Parsed? && raw.envelope.id == e.id ==> raw == Parsed(e)
    ensures OnlyCopiesOf(e, Process(s, raw, pruned))
    ensures Copies(Process(s, raw, pruned).inbox, e.id) ==
      Copies(s.inbox, e.id) + if raw == Parsed(e) && e.id !in s.seen then 1 else 0
  {
    hide Process, BufferAfter, Delivery, PartOf;
    var t := Process(s, raw, pruned);
    ProcessBuffers(s, raw, pruned);
    ProcessInbox(s, raw, pruned);
    HeldAfter(s, raw, t);
    DeliveryOfId(s, raw, e);
    if Delivery(s, raw).Some? {
      assert (s.inbox + [Delivery(s, raw).value])[..|s.inbox|] == s.inbox;
    } else {
      assert t.inbox == s.inbox;
    }
  }

  lemma {:induction false} CopiesAreAcceptances(raws: seq<Raw>, choices: seq<set<MessageId>>, e: Envelope)
    requires |raws| == |choices| && IsOrdinary(e) && IdIsOwn(e, raws)
    ensures
      var s := ProcessAll(EmptyClient(), raws, choices);
      OnlyCopiesOf(e, s) && Copies(s.inbox, e.id) == Acceptances(e, raws, choices)
    decreases |raws|
  {
    hide Process;
    if |raws| > 0 {
      var n := |raws| - 1;
      assert forall i :: 0 <= i < n ==> raws[..n][i] == raws[i];
      CopiesAreAcceptances(raws[..n], choices[..n], e);
      CopiesStep(ProcessAll(EmptyClient(), raws[..n], choices[..n]), raws[n], choices[n], e);
    }
  }

  lemma {:induction false} ArrivedIds(raws: seq<Raw>, e: Envelope)
    requires IdIsOwn(e, raws)
    ensures e.id in RawIds(raws) <==> Parsed(e) in raws
  {
  }

  /** The first arrival is accepted; another one exactly when the id was forgotten. */
  lemma {:induction false} AcceptedOnceIff(raws: seq<Raw>, choices: seq<set<MessageId>>, e: Envelope)
    requires |raws| == |choices| && IdIsOwn(e, raws)
    ensures Parsed(e) !in raws ==> Acceptances(e, raws, choices) == 0 && Retained({e.id}, raws, choices)
    ensures Parsed(e) in raws ==>
      Acceptances(e, raws, choices) >= 1 && (Acceptances(e, raws, choices) == 1 <==> Retained({e.id}, raws, choices))
    decreases |raws|
  {
    hide ProcessAll, RawIds;
    if |raws| > 0 {
      var n := |raws| - 1;
      var front := raws[..n];
      assert raws == front + [raws[n]];
      assert forall i :: 0 <= i < n ==> front[i] == raws[i];
      AcceptedOnceIff(front, choices[..n], e);
      ArrivedIds(front, e);
      SeenHasArrived(front, choices[..n]);
    }
  }

  lemma {:induction false} CopiesBound(inbox: seq<CipherMessage>, x: MessageId, k: nat)
    requires k < |inbox| && inbox[k].id == x
    ensures Copies(inbox, x) >= 1
    ensures Copies(inbox, x) == 1 ==> OnlyAt(inbox, {x}, k)
  {
    var n := |inbox| - 1;
    if k < n {
      CopiesBound(inbox[..n], x, k);
    }
    if Copies(inbox, x) == 1 {
      forall i | 0 <= i < |inbox| && i != k ensures inbox[i].id != x {
        if k < n && i < n {
          assert inbox[..n][i] == inbox[i];
        } else if k == n && inbox[i].id == x {
          CopiesBound(inbox[..n], x, i);
        }
      }
    }
  }

  lemma {:induction false} NoCopies(inbox: seq<CipherMessage>, x: MessageId)
    requires forall i :: 0 <= i < |inbox| ==> inbox[i].id != x
    ensures Copies(inbox, x) == 0
  {
    if |inbox| > 0 {
      NoCopies(inbox[..|inbox| - 1], x);
    }
  }

  lemma {:induction false} OnlyOneCopy(inbox: seq<CipherMessage>, x: MessageId, k: nat)
    requires OnlyAt(inbox, {x}, k)
    ensures Copies(inbox, x) == 1
  {
    var n := |inbox| - 1;
    if k == n {
      NoCopies(inbox[..n], x);
    } else {
      OnlyOneCopy(inbox[..n], x, k);
    }
  }

  lemma {:induction false} SomeCopy(inbox: seq<CipherMessage>, x: MessageId) returns (k: nat)
    requires Copies(inbox, x) > 0
    ensures k < |inbox| && inbox[k].id == x
  {
    k := |inbox| - 1;
    if inbox[k].id != x {
      k := SomeCopy(inbox[..k], x);
    }
  }

  /** Exactly once: an ordinary message that arrives at all is in the cumulative inbox at one
      position, and its id nowhere else, exactly when its id was remembered whenever it came
      again. */
  lemma {:induction false} ExactlyOnceIff(raws: seq<Raw>, choices: seq<set<MessageId>>, e: Envelope)
    requires |raws| == |choices|
    requires IsOrdinary(e) && Parsed(e) in raws && IdIsOwn(e, raws)
    ensures DeliveredOnce(ProcessAll(EmptyClient(), raws, choices).inbox, e) <==> Retained({e.id}, raws, choices)
  {
    hide ProcessAll, Retained, Acceptances;
    var inbox := ProcessAll(EmptyClient(), raws, choices).inbox;
    CopiesAreAcceptances(raws, choices, e);
    AcceptedOnceIff(raws, choices, e);
    if DeliveredOnce(inbox, e) {
      var k: nat :| OnlyAt(inbox, {e.id}, k) && inbox[k] == Opened(e);
      OnlyOneCopy(inbox, e.id, k);
    }
    if Retained({e.id}, raws, choices) {
      var k := SomeCopy(inbox, e.id);
      CopiesBound(inbox, e.id, k);
    }
  }

  /** In particular while fewer than 501 distinct ids arrive. */
  lemma {:induction false} ExactlyOnce(raws: seq<Raw>, choices: seq<set<MessageId>>, e: Envelope)
    requires |raws| == |choices| && |RawIds(raws)| <= 500
    requires IsOrdinary(e) && Parsed(e) in raws && IdIsOwn(e, raws)
    ensures DeliveredOnce(ProcessAll(EmptyClient(), raws, choices).inbox, e)
  {
    FewIdsAreRetained({e.id}, raws, choices);
    ExactlyOnceIff(raws, choices, e);
  }

  // ----- The bound is sharp -----

  /** Beyond 500 ids there are prunings that forget the first message. */
  lemma {:induction false} ForgetfulPruning(raws: seq<Raw>, e: Envelope) returns (choices: seq<set<MessageId>>)
    requires |raws| > 0 && raws[0] == Parsed(e)
    ensures ChoicesAllowed(EmptyClient(), raws, choices)
    ensures |RawIds(raws)| > SEEN_LIMIT ==>
      e.id !in ProcessAll(EmptyClient(), raws, choices).seen || !Retained({e.id}, raws, choices)
    decreases |raws|
  {
    hide Process, RawIds;
    var n := |raws| - 1;
    IdsOfLast(raws);
    if n == 0 {
      choices := [{}];
      FirstIds(raws);
    } else {
      var front := raws[..n];
      var earlier := ForgetfulPruning(front, e);
      var s := ProcessAll(EmptyClient(), front, earlier);
      SeenHasArrived(front, earlier);
      FirstArrived(front, e);
      var pruned := if raws[n].Parsed? then ForgetfulChoice(s.seen, raws[n].envelope.id, e.id) else {};
      choices := earlier + [pruned];
      assert choices[..n] == earlier;
      ProcessBuffers(s, raws[n], pruned);
    }
  }

  lemma {:induction false} FirstIds(raws: seq<Raw>)
    requires |raws| == 1
    ensures |RawIds(raws)| <= 1
  {
    IdsOfLast(raws);
    assert RawIds(raws[..0]) == {};
  }

  lemma {:induction false} FirstArrived(raws: seq<Raw>, e: Envelope)
    requires |raws| > 0 && raws[0] == Parsed(e)
    ensures e.id in RawIds(raws)
  {
  }

  /** A pruning, when there is one, that forgets `x` if it is remembered. */
  ghost function ForgetfulChoice(seen: set<MessageId>, id: MessageId, x: MessageId): (pruned: set<MessageId>)
    ensures PruneAllowed(seen, id, pruned)
    ensures |seen + {id}| > SEEN_LIMIT ==> x !in Remember(seen, id, pruned)
  {
    var all := seen + {id};
    if |all| > SEEN_LIMIT && x in all then
      assert |all - {x}| == |all| - 1;
      SubsetExists(all - {x}, PRUNE_COUNT - 1);
      var t :| t <= all - {x} && |t| == PRUNE_COUNT - 1; t + {x}
    else SomePruning(seen, id)
  }

  lemma {:induction false} NotRetained(raws: seq<Raw>, choices: seq<set<MessageId>>, x: MessageId)
    requires |raws| == |choices| && |raws| > 0
    requires
      var n := |raws| - 1;
      && raws[n].Parsed? && raws[n].envelope.id == x && x in RawIds(raws[..n])
      && (x !in ProcessAll(EmptyClient(), raws[..n], choices[..n]).seen || !Retained({x}, raws[..n], choices[..n]))
    ensures !Retained({x}, raws, choices)
  {
  }

  ghost predicate OnceForEveryPruning(raws: seq<Raw>, e: Envelope)
    requires e.plaintext.Some?
  {
    forall choices :: ChoicesAllowed(EmptyClient(), raws, choices) ==>
      DeliveredOnce(ProcessAll(EmptyClient(), raws, choices).inbox, e)
  }

  ghost predicate CanComeTwice(raws: seq<Raw>, e: Envelope) {
    exists choices :: ChoicesAllowed(EmptyClient(), raws, choices)
      && Copies(ProcessAll(EmptyClient(), raws, choices).inbox, e.id) >= 2
  }

  /** When a first message comes again after others, it is delivered once for every pruning
      exactly when there were at most 500 distinct ids: at 501 some prunings deliver it twice. */
  lemma {:induction false} FiveHundredIsSharp(raws: seq<Raw>, e: Envelope)
    requires |raws| > 0 && raws[0] == Parsed(e) && IsOrdinary(e) && IdIsOwn(e, raws)
    ensures OnceForEveryPruning(raws + [Parsed(e)], e) <==> |RawIds(raws)| <= 500
    ensures CanComeTwice(raws + [Parsed(e)], e) <==> |RawIds(raws)| > 500
  {
    hide ProcessAll, RawIds, DeliveredOnce, PruneAllowed, Retained, Copies, Acceptances;
    var again := raws + [Parsed(e)];
    var n := |raws|;
    assert again[..n] == raws && again[0] == Parsed(e);
    IdsOfLast(again);
    FirstArrived(raws, e);
    if |RawIds(raws)| <= SEEN_LIMIT {
      assert RawIds(again) == RawIds(raws);
      forall choices | ChoicesAllowed(EmptyClient(), again, choices)
        ensures DeliveredOnce(ProcessAll(EmptyClient(), again, choices).inbox, e)
      {
        ExactlyOnce(again, choices, e);
      }
      forall choices | ChoicesAllowed(EmptyClient(), again, choices)
        ensures Copies(ProcessAll(EmptyClient(), again, choices).inbox, e.id) < 2
      {
        FewIdsAreRetained({e.id}, again, choices);
        CopiesAreAcceptances(again, choices, e);
        AcceptedOnceIff(again, choices, e);
      }
    } else {
      var earlier := ForgetfulPruning(raws, e);
      var choices := earlier + [SomePruning(ProcessAll(EmptyClient(), raws, earlier).seen, e.id)];
      assert choices[..n] == earlier;
      assert ChoicesAllowed(EmptyClient(), again, choices);
      NotRetained(again, choices, e.id);
      ExactlyOnceIff(again, choices, e);
      CopiesAreAcceptances(again, choices, e);
      AcceptedOnceIff(again, choices, e);
    }
  }
}
