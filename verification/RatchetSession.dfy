/**
Whole conversations of two Double Ratchet endpoints over two lossless FIFO channels.

The session is a step system: either side may send, and the oldest undelivered message of a
channel may be delivered, in any interleaving.  The invariant places both endpoints on one
common key schedule: a single sequence of Diffie-Hellman secrets, used alternately by the two
sides, determines every root key, chain key and message key.
*/
module RatchetSession {
  import opened Prelude
  import opened Ratchet

  // ----- The key schedule -----

  /** Root key number `e`, after `e` exchanges between neighbouring secrets. */
  ghost function Root(secrets: seq<nat>, e: nat): Term
    requires e < |secrets|
  {
    if e == 0 then Shared
    else RootKdf(DiffieHellman(secrets[e], PublicOf(secrets[e - 1])), Root(secrets, e - 1))
  }

  /** First chain key used for sending in epoch `e`.  Only the responder is ever in epoch 0:
      before its first receive its chain key is all zeros. */
  ghost function SendBase(secrets: seq<nat>, e: nat): Term
    requires e < |secrets|
  {
    if e == 0 then Zeros else ChainKdf(Root(secrets, e), SendChain)
  }

  /** First chain key used for receiving what was sent in epoch `e`. */
  ghost function RecvBase(secrets: seq<nat>, e: nat): Term
    requires e + 1 < |secrets|
  {
    if e == 0 then ChainKdf(Root(secrets, 1), RecvChain) else SendBase(secrets, e)
  }

  ghost function ChainAt(base: Term, n: nat): Term {
    if n == 0 then base else Hmac(ChainAt(base, n - 1), 2)
  }

  ghost function MessageKey(secrets: seq<nat>, e: nat, n: nat): Term
    requires e < |secrets|
  {
    Hmac(ChainAt(SendBase(secrets, e), n), 1)
  }

  /** The schedule written out.  A root key takes the exchange of two neighbouring secrets as
      input and the root before it as salt; a chain starts from the root as input; a chain key
      gives the message key under tag 1 and the next chain key under tag 2. */
  lemma {:induction false} KeysInFull(secrets: seq<nat>, e: nat, base: Term, n: nat)
    requires e + 1 < |secrets|
    ensures Root(secrets, 0) == Shared
    ensures
      var x, y := secrets[e], secrets[e + 1];
      Root(secrets, e + 1) == Hkdf(if x <= y then DhOutput(x, y) else DhOutput(y, x), Root(secrets, e), RatchetRoot)
    ensures SendBase(secrets, 0) == Zeros
    ensures SendBase(secrets, e + 1) == Hkdf(Root(secrets, e + 1), Constant(CipherChain), SendChain)
    ensures ChainAt(base, 0) == base && ChainAt(base, n + 1) == Hmac(ChainAt(base, n), 2)
    ensures MessageKey(secrets, e, n) == Hmac(ChainAt(SendBase(secrets, e), n), 1)
  {
  }

  /** The state in which each side starts, written out. */
  lemma {:induction false} InitialKeys(x: nat, y: nat)
    ensures
      var s := InitialSession(x, y);
      var root := Hkdf(if x <= y then DhOutput(x, y) else DhOutput(y, x), Shared, RatchetRoot);
      && s.a.endpoint == Endpoint(root, Hkdf(root, Constant(CipherChain), SendChain),
           Hkdf(root, Constant(CipherChain), RecvChain), x, PublicOf(y), 0, 0)
      && s.b.endpoint == Endpoint(Shared, Zeros, Zeros, y, ZeroPublic, 0, 0)
  {
  }

  // ----- Sessions and their steps -----

  datatype Sent = Sent(epoch: nat, plaintext: seq<byte>, msg: RatchetMessage)

  /** A FIFO channel with its history: everything sent, and the outcome of each delivery
      so far.  The messages in flight are `log[|results|..]`. */
  datatype Link = Link(log: seq<Sent>, results: seq<Option<seq<byte>>>)

  /** `epoch` is twice the number of ratchet steps taken, plus one for the initiator. */
  datatype Party = Party(endpoint: Endpoint, epoch: nat)

  datatype Session = Session(a: Party, b: Party, ab: Link, ba: Link, secrets: seq<nat>)

  datatype Role = Initiator | Responder

  datatype Event =
    | Send(sender: Role, plaintext: seq<byte>, nonce: nat)
    | Deliver(receiver: Role, newSecret: nat)

  function InitialSession(initiatorSecret: nat, responderSecret: nat): Session {
    Session(
      Party(SenderEndpoint(Shared, PublicOf(responderSecret), initiatorSecret), 1),
      Party(ReceiverEndpoint(Shared, responderSecret), 0),
      Link([], []), Link([], []), [responderSecret, initiatorSecret])
  }

  function Flip(s: Session): Session {
    Session(s.b, s.a, s.ba, s.ab, s.secrets)
  }

  function SendFromA(s: Session, plaintext: seq<byte>, nonce: nat): Session {
    var sent := Sent(s.a.epoch, plaintext, Encrypted(s.a.endpoint, plaintext, nonce));
    s.(a := s.a.(endpoint := AfterEncrypt(s.a.endpoint)), ab := s.ab.(log := s.ab.log + [sent]))
  }

  function DeliverToB(s: Session, newSecret: nat): Session
    requires |s.ab.results| < |s.ab.log|
  {
    var msg := s.ab.log[|s.ab.results|].msg;
    var steps := NeedsRatchetStep(s.b.endpoint, msg);
    s.(b := Party(AfterDecrypt(s.b.endpoint, msg, newSecret), if steps then s.b.epoch + 2 else s.b.epoch),
       ab := s.ab.(results := s.ab.results + [Decrypted(s.b.endpoint, msg, newSecret)]),
       secrets := if steps then s.secrets + [newSecret] else s.secrets)
  }

  /** Anyone may send at any time; a delivery needs a message in flight and a secret that is
      new, in case a ratchet step consumes it. */
  predicate Enabled(s: Session, e: Event) {
    match e
    case Send(_, _, _) => true
    case Deliver(Responder, newSecret) => |s.ab.results| < |s.ab.log| && newSecret !in s.secrets
    case Deliver(Initiator, newSecret) => |s.ba.results| < |s.ba.log| && newSecret !in s.secrets
  }

  function Apply(s: Session, e: Event): Session
    requires Enabled(s, e)
  {
    match e
    case Send(Initiator, plaintext, nonce) => SendFromA(s, plaintext, nonce)
    case Send(Responder, plaintext, nonce) => Flip(SendFromA(Flip(s), plaintext, nonce))
    case Deliver(Responder, newSecret) => DeliverToB(s, newSecret)
    case Deliver(Initiator, newSecret) => Flip(DeliverToB(Flip(s), newSecret))
  }

  /** `trace` is a run: it starts in an initial session and each state follows from the one
      before by an enabled event. */
  ghost predicate IsRun(trace: seq<Session>, events: seq<Event>) {
    && |trace| == |events| + 1
    && (exists x: nat, y: nat :: x != y && trace[0] == InitialSession(x, y))
    && forall i :: 0 <= i < |events| ==>
      Enabled(trace[i], events[i]) && trace[i + 1] == Apply(trace[i], events[i])
  }

  // ----- The invariant -----

  ghost predicate Distinct(secrets: seq<nat>) {
    forall i, j :: 0 <= i < j < |secrets| ==> secrets[i] != secrets[j]
  }

  ghost predicate PartyOk(p: Party, secrets: seq<nat>) {
    var e := p.endpoint;
    && p.epoch < |secrets|
    && e.dhSecret == secrets[p.epoch]
    && e.rootKey == Root(secrets, p.epoch)
    && e.chainKeySend == ChainAt(SendBase(secrets, p.epoch), e.sendCounter)
    && (p.epoch == 0 ==> e.theirDhPublic == ZeroPublic && e.chainKeyRecv == Zeros && e.recvCounter == 0)
    && (p.epoch > 0 ==>
          && e.theirDhPublic == PublicOf(secrets[p.epoch - 1])
          && e.chainKeyRecv == ChainAt(RecvBase(secrets, p.epoch - 1), e.recvCounter))
  }

  /** Entry `m` is what its sender's endpoint produced at its epoch and counter. */
  ghost predicate OnSchedule(m: Sent, snd: Party, secrets: seq<nat>) {
    && m.epoch <= snd.epoch < |secrets|
    && m.epoch % 2 == snd.epoch % 2
    && m.msg.dhPublic == PublicOf(secrets[m.epoch])
    && m.msg.encrypted.key == MessageKey(secrets, m.epoch, m.msg.counter)
    && m.msg.encrypted.plaintext == m.plaintext
    && (m.epoch == snd.epoch ==> m.msg.counter < snd.endpoint.sendCounter)
  }

  ghost predicate Before(m: Sent, n: Sent) {
    m.epoch < n.epoch || (m.epoch == n.epoch && m.msg.counter < n.msg.counter)
  }

  ghost function Faithful(m: Sent): Option<seq<byte>> {
    if m.epoch == 0 then None else Some(m.plaintext)
  }

  /** Number of messages in flight that belong to the epoch the receiver is listening to. */
  ghost function OldInFlight(l: Link, snd: Party, rcv: Party): int {
    if snd.epoch < rcv.epoch then |l.log| - |l.results|
    else |l.log| - |l.results| - snd.endpoint.sendCounter
  }

  /** What is in flight: first messages of the receiver's listening epoch, continuing at its
      counter, then (when the sender is ahead) all messages of the sender's new epoch. */
  ghost predicate InFlightOk(l: Link, snd: Party, rcv: Party) {
    var done := |l.results|;
    var stale := OldInFlight(l, snd, rcv);
    && done <= |l.log|
    && 0 <= stale
    && (rcv.epoch == 0 ==> stale == 0)
    && (snd.epoch < rcv.epoch ==> rcv.endpoint.recvCounter + stale == snd.endpoint.sendCounter)
    && (forall i :: done <= i < done + stale && i < |l.log| ==>
          l.log[i].epoch == rcv.epoch - 1 && l.log[i].msg.counter == rcv.endpoint.recvCounter + (i - done))
    && (forall i :: done + stale <= i < |l.log| ==>
          l.log[i].epoch == snd.epoch && l.log[i].msg.counter == i - done - stale)
  }

  /** The receiving chain has moved past the key of a delivered message. */
  ghost predicate AlreadyPassed(m: Sent, rcv: Party) {
    m.epoch < rcv.epoch && (m.epoch == rcv.epoch - 1 ==> m.msg.counter < rcv.endpoint.recvCounter)
  }

  ghost predicate LinkOk(l: Link, snd: Party, rcv: Party, secrets: seq<nat>) {
    && InFlightOk(l, snd, rcv)
    && (forall i :: 0 <= i < |l.log| ==> OnSchedule(l.log[i], snd, secrets))
    && (forall i, j :: 0 <= i < j < |l.log| ==> Before(l.log[i], l.log[j]))
    && (forall i :: 0 <= i < |l.results| ==> l.results[i] == Faithful(l.log[i]))
    && (forall i :: 0 <= i < |l.results| ==> AlreadyPassed(l.log[i], rcv))
    && (rcv.epoch % 2 == 0 ==> (rcv.epoch == 0 <==> l.results == []))
  }

  ghost predicate Lockstep(s: Session) {
    s.a.epoch == s.b.epoch + 1 || s.b.epoch == s.a.epoch + 1
  }

  ghost predicate Inv(s: Session) {
    && Lockstep(s)
    && |s.secrets| == (if s.a.epoch < s.b.epoch then s.b.epoch else s.a.epoch) + 1
    && Distinct(s.secrets)
    && PartyOk(s.a, s.secrets)
    && PartyOk(s.b, s.secrets)
    && LinkOk(s.ab, s.a, s.b, s.secrets)
    && LinkOk(s.ba, s.b, s.a, s.secrets)
  }

  // ----- Preservation -----

  lemma {:induction false} InvInitial(x: nat, y: nat)
    requires x != y
    ensures Inv(InitialSession(x, y))
  {
    var s := InitialSession(x, y);
    assert Root(s.secrets, 1) == s.a.endpoint.rootKey;
  }

  lemma {:induction false} InvFlip(s: Session)
    requires Inv(s)
    ensures Inv(Flip(s))
  {
  }

  lemma {:induction false} InvSend(s: Session, plaintext: seq<byte>, nonce: nat)
    requires Inv(s)
    ensures Inv(SendFromA(s, plaintext, nonce))
  {
    hide LinkOk;
    var t := SendFromA(s, plaintext, nonce);
    SendForwardLink(s, plaintext, nonce);
    ReceiverStable(s.ba, s.b, s.a, t.a, s.secrets);
  }

  /** Of the receiver a link depends only on the epoch and the receive counter. */
  lemma {:induction false} ReceiverStable(l: Link, snd: Party, rcv: Party, rcv': Party, secrets: seq<nat>)
    requires LinkOk(l, snd, rcv, secrets)
    requires rcv'.epoch == rcv.epoch && rcv'.endpoint.recvCounter == rcv.endpoint.recvCounter
    ensures LinkOk(l, snd, rcv', secrets)
  {
    hide OnSchedule, Before, Faithful;
  }

  lemma {:induction false} SendForwardLink(s: Session, plaintext: seq<byte>, nonce: nat)
    requires Inv(s)
    ensures var t := SendFromA(s, plaintext, nonce); LinkOk(t.ab, t.a, t.b, t.secrets)
  {
    hide Root, SendBase, RecvBase, Distinct;
    var t := SendFromA(s, plaintext, nonce);
    var n := |s.ab.log|;
    forall i | 0 <= i < n
      ensures OnSchedule(t.ab.log[i], t.a, t.secrets) && Before(t.ab.log[i], t.ab.log[n])
    {
      assert OnSchedule(s.ab.log[i], s.a, s.secrets);
    }
    assert OnSchedule(t.ab.log[n], t.a, t.secrets);
    SendInFlight(s, plaintext, nonce);
  }

  lemma {:induction false} SendInFlight(s: Session, plaintext: seq<byte>, nonce: nat)
    requires Inv(s)
    ensures var t := SendFromA(s, plaintext, nonce); InFlightOk(t.ab, t.a, t.b)
  {
  }

  /** Extending the list of secrets changes no key already on the schedule. */
  lemma {:induction false} RootStable(secrets: seq<nat>, newSecret: nat, e: nat)
    requires e < |secrets|
    ensures Root(secrets + [newSecret], e) == Root(secrets, e)
  {
    if e > 0 {
      RootStable(secrets, newSecret, e - 1);
    }
  }

  lemma {:induction false} ScheduleStable(secrets: seq<nat>, newSecret: nat)
    ensures forall e: nat :: e < |secrets| ==> SendBase(secrets + [newSecret], e) == SendBase(secrets, e)
    ensures forall e: nat :: e + 1 < |secrets| ==> RecvBase(secrets + [newSecret], e) == RecvBase(secrets, e)
  {
    forall e: nat | e < |secrets|
      ensures SendBase(secrets + [newSecret], e) == SendBase(secrets, e)
      ensures e + 1 < |secrets| ==> RecvBase(secrets + [newSecret], e) == RecvBase(secrets, e)
    {
      RootStable(secrets, newSecret, e);
      if e + 1 < |secrets| {
        RootStable(secrets, newSecret, e + 1);
      }
    }
  }

  ghost function Head(s: Session): Sent
    requires |s.ab.results| < |s.ab.log|
  {
    s.ab.log[|s.ab.results|]
  }

  /** The next message to be delivered: it needs a ratchet step exactly when nothing of the
      epoch listened to is in flight, and its counter is the one the receiver expects. */
  lemma {:induction false} HeadOfLink(s: Session)
    requires Inv(s) && |s.ab.results| < |s.ab.log|
    ensures !NeedsRatchetStep(s.b.endpoint, Head(s).msg) ==>
      && s.b.epoch > 0 && Head(s).epoch == s.b.epoch - 1
      && OldInFlight(s.ab, s.a, s.b) > 0
      && Head(s).msg.counter == s.b.endpoint.recvCounter
    ensures NeedsRatchetStep(s.b.endpoint, Head(s).msg) ==>
      && Head(s).epoch == s.a.epoch == s.b.epoch + 1
      && OldInFlight(s.ab, s.a, s.b) == 0
      && Head(s).msg.counter == 0
  {
    assert OnSchedule(Head(s), s.a, s.secrets);
  }

  /** What the responder sends before its first receive is keyed from zeros, which the
      initiator's receiving chain never meets. */
  lemma {:induction false} BasesDiffer(secrets: seq<nat>, n: nat)
    requires |secrets| > 1
    ensures ChainAt(RecvBase(secrets, 0), n) != ChainAt(SendBase(secrets, 0), n)
  {
    if n > 0 {
      BasesDiffer(secrets, n - 1);
    }
  }

  /** A delivery within the epoch the receiver already listens to. */
  lemma {:induction false} SameEpochReceiver(s: Session, newSecret: nat)
    requires Inv(s) && |s.ab.results| < |s.ab.log|
    requires !NeedsRatchetStep(s.b.endpoint, Head(s).msg)
    ensures PartyOk(DeliverToB(s, newSecret).b, s.secrets)
    ensures Decrypted(s.b.endpoint, Head(s).msg, newSecret) == Faithful(Head(s))
  {
    hide Root, DiffieHellman, InFlightOk;
    HeadOfLink(s);
    assert OnSchedule(Head(s), s.a, s.secrets);
    if Head(s).epoch == 0 {
      BasesDiffer(s.secrets, Head(s).msg.counter);
    }
  }

  lemma {:induction false} InvDeliverSameEpoch(s: Session, newSecret: nat)
    requires Inv(s) && |s.ab.results| < |s.ab.log|
    requires !NeedsRatchetStep(s.b.endpoint, Head(s).msg)
    ensures Inv(DeliverToB(s, newSecret))
  {
    HeadOfLink(s);
    SameEpochReceiver(s, newSecret);
    SameEpochForwardLink(s, newSecret);
    BackLinkStable(s, DeliverToB(s, newSecret));
  }

  lemma {:induction false} SameEpochForwardLink(s: Session, newSecret: nat)
    requires Inv(s) && |s.ab.results| < |s.ab.log|
    requires !NeedsRatchetStep(s.b.endpoint, Head(s).msg)
    ensures var t := DeliverToB(s, newSecret); LinkOk(t.ab, t.a, t.b, t.secrets)
  {
    hide PartyOk, OnSchedule, Before, Decrypted;
    HeadOfLink(s);
    SameEpochReceiver(s, newSecret);
    var t := DeliverToB(s, newSecret);
    assert InFlightOk(t.ab, t.a, t.b);
    forall i | 0 <= i < |t.ab.results|
      ensures AlreadyPassed(t.ab.log[i], t.b) && t.ab.results[i] == Faithful(t.ab.log[i])
    {
      assert i < |s.ab.results| ==> AlreadyPassed(s.ab.log[i], s.b);
    }
  }

  /** The reverse link depends on the receiver only through what it has sent. */
  lemma {:induction false} BackLinkStable(s: Session, t: Session)
    requires Inv(s) && t.ba == s.ba && t.a == s.a && t.secrets == s.secrets
    requires t.b.epoch == s.b.epoch
    requires t.b.endpoint.sendCounter == s.b.endpoint.sendCounter
    ensures LinkOk(t.ba, t.b, t.a, t.secrets)
  {
    forall i | 0 <= i < |t.ba.log|
      ensures OnSchedule(t.ba.log[i], t.b, t.secrets)
    {
      assert OnSchedule(s.ba.log[i], s.b, s.secrets);
    }
  }

  /** The two root keys of a ratchet step are the next two of the schedule. */
  lemma {:induction false} NewRoots(s: Session, newSecret: nat)
    requires Inv(s) && s.a.epoch == s.b.epoch + 1
    ensures
      var their := PublicOf(s.secrets[s.a.epoch]);
      var middle := RootKdf(DiffieHellman(s.secrets[s.b.epoch], their), Root(s.secrets, s.b.epoch));
      && middle == Root(s.secrets + [newSecret], s.b.epoch + 1)
      && RootKdf(DiffieHellman(newSecret, their), middle) == Root(s.secrets + [newSecret], s.b.epoch + 2)
  {
    var e := s.b.epoch;
    RootStable(s.secrets, newSecret, e);
    ExchangeAgrees(s.secrets[e], s.secrets[e + 1]);
  }

  /** A delivery that makes the receiver take a ratchet step. */
  lemma {:induction false} NewEpochReceiver(s: Session, newSecret: nat)
    requires Inv(s) && |s.ab.results| < |s.ab.log| && newSecret !in s.secrets
    requires NeedsRatchetStep(s.b.endpoint, Head(s).msg)
    ensures PartyOk(DeliverToB(s, newSecret).b, s.secrets + [newSecret])
    ensures Decrypted(s.b.endpoint, Head(s).msg, newSecret) == Faithful(Head(s))
  {
    hide Inv, PartyOk, Root, SendBase, RecvBase, Synchronized, NeedsRatchetStep, Decrypted, Faithful;
    SteppedReceiver(s, newSecret);
    StepDecrypts(s, newSecret);
    FreshParty(Synchronized(s.b.endpoint, Head(s).msg, newSecret), s.secrets + [newSecret], s.a.epoch);
    assert DeliverToB(s, newSecret).b == Party(AfterDecrypt(s.b.endpoint, Head(s).msg, newSecret), s.a.epoch + 1);
  }

  /** The receiver's endpoint between the ratchet step and the chain step. */
  lemma {:induction false} SteppedReceiver(s: Session, newSecret: nat)
    requires Inv(s) && |s.ab.results| < |s.ab.log|
    requires NeedsRatchetStep(s.b.endpoint, Head(s).msg)
    ensures s.a.epoch == s.b.epoch + 1 && |s.secrets| == s.a.epoch + 1
    ensures
      var secrets := s.secrets + [newSecret];
      Synchronized(s.b.endpoint, Head(s).msg, newSecret) ==
        Endpoint(Root(secrets, s.a.epoch + 1), SendBase(secrets, s.a.epoch + 1), SendBase(secrets, s.a.epoch),
                 secrets[s.a.epoch + 1], PublicOf(secrets[s.a.epoch]), 0, 0)
  {
    HeadOfLink(s);
    HeadOnSchedule(s);
    StepOntoSchedule(s, newSecret);
    hide AfterRatchetStep, Root, SendBase, PartyOk, LinkOk, Distinct;
  }

  lemma {:induction false} StepDecrypts(s: Session, newSecret: nat)
    requires Inv(s) && |s.ab.results| < |s.ab.log|
    requires NeedsRatchetStep(s.b.endpoint, Head(s).msg)
    ensures Decrypted(s.b.endpoint, Head(s).msg, newSecret) == Faithful(Head(s))
  {
    HeadOfLink(s);
    HeadOnSchedule(s);
    SteppedReceiver(s, newSecret);
    ScheduleStable(s.secrets, newSecret);
    hide Inv, Synchronized, NeedsRatchetStep, Root, SendBase, RecvBase;
    assert ChainAt(SendBase(s.secrets, s.a.epoch), 0) == SendBase(s.secrets, s.a.epoch);
  }

  /** The first receive after a ratchet step. */
  lemma {:induction false} FreshParty(e: Endpoint, secrets: seq<nat>, epoch: nat)
    requires 0 < epoch && |secrets| == epoch + 2
    requires e == Endpoint(Root(secrets, epoch + 1), SendBase(secrets, epoch + 1), SendBase(secrets, epoch),
                           secrets[epoch + 1], PublicOf(secrets[epoch]), 0, 0)
    ensures PartyOk(Party(e.(chainKeyRecv := Hmac(e.chainKeyRecv, 2), recvCounter := e.recvCounter + 1), epoch + 1),
                    secrets)
  {
    hide Root;
    var base := SendBase(secrets, epoch);
    assert ChainAt(base, 0) == base && ChainAt(base, 1) == Hmac(base, 2);
    assert ChainAt(SendBase(secrets, epoch + 1), 0) == SendBase(secrets, epoch + 1);
  }

  lemma {:induction false} HeadOnSchedule(s: Session)
    requires Inv(s) && |s.ab.results| < |s.ab.log|
    ensures OnSchedule(Head(s), s.a, s.secrets)
  {
  }

  /** The state after a ratchet step, on the extended schedule. */
  lemma {:induction false} StepOntoSchedule(s: Session, newSecret: nat)
    requires Inv(s) && s.a.epoch == s.b.epoch + 1
    ensures
      var secrets := s.secrets + [newSecret];
      var stepped := AfterRatchetStep(s.b.endpoint, PublicOf(s.secrets[s.a.epoch]), newSecret);
      stepped == Endpoint(Root(secrets, s.a.epoch + 1), SendBase(secrets, s.a.epoch + 1), SendBase(secrets, s.a.epoch),
                          newSecret, PublicOf(s.secrets[s.a.epoch]), 0, 0)
  {
    NewRoots(s, newSecret);
  }

  lemma {:induction false} PartyStable(p: Party, secrets: seq<nat>, newSecret: nat)
    requires PartyOk(p, secrets)
    ensures PartyOk(p, secrets + [newSecret])
  {
    RootStable(secrets, newSecret, p.epoch);
    ScheduleStable(secrets, newSecret);
  }

  lemma {:induction false} OnScheduleStable(m: Sent, snd: Party, secrets: seq<nat>, newSecret: nat)
    requires OnSchedule(m, snd, secrets)
    ensures OnSchedule(m, snd, secrets + [newSecret])
  {
    ScheduleStable(secrets, newSecret);
  }

  lemma {:induction false} NewEpochForwardLink(s: Session, newSecret: nat)
    requires Inv(s) && |s.ab.results| < |s.ab.log| && newSecret !in s.secrets
    requires NeedsRatchetStep(s.b.endpoint, Head(s).msg)
    ensures var t := DeliverToB(s, newSecret); LinkOk(t.ab, t.a, t.b, t.secrets)
  {
    hide PartyOk, OnSchedule, Before, Decrypted;
    HeadOfLink(s);
    NewEpochReceiver(s, newSecret);
    var t := DeliverToB(s, newSecret);
    forall i | 0 <= i < |t.ab.log|
      ensures OnSchedule(t.ab.log[i], t.a, t.secrets)
    {
      OnScheduleStable(s.ab.log[i], s.a, s.secrets, newSecret);
    }
    assert InFlightOk(t.ab, t.a, t.b);
  }

  lemma {:induction false} NewEpochBackLink(s: Session, newSecret: nat)
    requires Inv(s) && |s.ab.results| < |s.ab.log| && newSecret !in s.secrets
    requires NeedsRatchetStep(s.b.endpoint, Head(s).msg)
    ensures var t := DeliverToB(s, newSecret); LinkOk(t.ba, t.b, t.a, t.secrets)
  {
    hide PartyOk, Before, Decrypted, MessageKey;
    HeadOfLink(s);
    var t := DeliverToB(s, newSecret);
    forall i | 0 <= i < |t.ba.log|
      ensures OnSchedule(t.ba.log[i], t.b, t.secrets)
    {
      OnScheduleStable(s.ba.log[i], s.b, s.secrets, newSecret);
    }
    assert InFlightOk(t.ba, t.b, t.a);
  }

  lemma {:induction false} InvDeliverNewEpoch(s: Session, newSecret: nat)
    requires Inv(s) && |s.ab.results| < |s.ab.log| && newSecret !in s.secrets
    requires NeedsRatchetStep(s.b.endpoint, Head(s).msg)
    ensures Inv(DeliverToB(s, newSecret))
  {
    hide PartyOk, LinkOk, AfterDecrypt, Decrypted;
    HeadOfLink(s);
    NewEpochReceiver(s, newSecret);
    PartyStable(s.a, s.secrets, newSecret);
    NewEpochForwardLink(s, newSecret);
    NewEpochBackLink(s, newSecret);
  }

  lemma {:induction false} InvApply(s: Session, e: Event)
    requires Inv(s) && Enabled(s, e)
    ensures Inv(Apply(s, e))
  {
    match e
    case Send(Initiator, plaintext, nonce) =>
      InvSend(s, plaintext, nonce);
    case Send(Responder, plaintext, nonce) =>
      InvFlip(s);
      InvSend(Flip(s), plaintext, nonce);
      InvFlip(SendFromA(Flip(s), plaintext, nonce));
    case Deliver(Responder, newSecret) =>
      InvDeliver(s, newSecret);
    case Deliver(Initiator, newSecret) =>
      InvFlip(s);
      InvDeliver(Flip(s), newSecret);
      InvFlip(DeliverToB(Flip(s), newSecret));
  }

  lemma {:induction false} InvDeliver(s: Session, newSecret: nat)
    requires Inv(s) && |s.ab.results| < |s.ab.log| && newSecret !in s.secrets
    ensures Inv(DeliverToB(s, newSecret))
  {
    if !NeedsRatchetStep(s.b.endpoint, Head(s).msg) {
      InvDeliverSameEpoch(s, newSecret);
    } else {
      InvDeliverNewEpoch(s, newSecret);
    }
  }

  // ----- Theorems about every run -----

  lemma {:induction false} RunKeepsInv(trace: seq<Session>, events: seq<Event>, i: nat)
    requires IsRun(trace, events) && i < |trace|
    ensures Inv(trace[i])
  {
    if i == 0 {
      var x: nat, y: nat :| x != y && trace[0] == InitialSession(x, y);
      InvInitial(x, y);
    } else {
      RunKeepsInv(trace, events, i - 1);
      InvApply(trace[i - 1], events[i - 1]);
    }
  }

  /** Channels only grow: neither a logged message nor an outcome is ever rewritten. */
  lemma {:induction false} HistoryGrows(trace: seq<Session>, events: seq<Event>, i: nat, k: nat)
    requires IsRun(trace, events) && i <= k < |trace|
    ensures trace[i].ab.log <= trace[k].ab.log && trace[i].ba.log <= trace[k].ba.log
    ensures trace[i].ab.results <= trace[k].ab.results && trace[i].ba.results <= trace[k].ba.results
    ensures trace[i].secrets <= trace[k].secrets
    decreases k
  {
    if i < k {
      HistoryGrows(trace, events, i, k - 1);
    }
  }

  ghost function LinkFrom(s: Session, sender: Role): Link {
    if sender == Initiator then s.ab else s.ba
  }

  /** The main result.  Whatever is sent at step `i` of a run, by whichever side, is decrypted,
      once delivered, to exactly that plaintext, except what the responder sends before its
      first receive, which is always rejected.  The condition is visible to the sender. */
  lemma {:induction false} DeliveredMessageDecrypts(trace: seq<Session>, events: seq<Event>, i: nat, k: nat)
    requires IsRun(trace, events) && i < |events| && events[i].Send? && i < k < |trace|
    ensures
      var sender := events[i].sender;
      var position := |LinkFrom(trace[i], sender).log|;
      var outcomes := LinkFrom(trace[k], sender).results;
      position < |outcomes| ==>
        outcomes[position] ==
          if sender == Responder && trace[i].ab.results == [] then None else Some(events[i].plaintext)
  {
    hide Inv, Apply, Enabled;
    RunKeepsInv(trace, events, i);
    RunKeepsInv(trace, events, k);
    HistoryGrows(trace, events, i + 1, k);
    EpochParity(trace, events, i);
    assert trace[i + 1] == Apply(trace[i], events[i]);
    SendAppends(trace[i], events[i]);
    var position := |LinkFrom(trace[i], events[i].sender).log|;
    if position < |LinkFrom(trace[k], events[i].sender).results| {
      ResultIsFaithful(trace[k], events[i].sender, position);
    }
  }

  /** A sent message is logged with the epoch of its sender, which for the responder is 0
      exactly before its first receive. */
  lemma {:induction false} SendAppends(s: Session, e: Event)
    requires Inv(s) && e.Send? && s.a.epoch % 2 == 1 && s.b.epoch % 2 == 0
    ensures
      var before, after := LinkFrom(s, e.sender).log, LinkFrom(Apply(s, e), e.sender).log;
      && |after| == |before| + 1
      && after[|before|].plaintext == e.plaintext
      && (after[|before|].epoch == 0 <==> e.sender == Responder && s.ab.results == [])
  {
  }

  lemma {:induction false} ResultIsFaithful(s: Session, sender: Role, i: nat)
    requires Inv(s) && i < |LinkFrom(s, sender).results|
    ensures i < |LinkFrom(s, sender).log|
    ensures LinkFrom(s, sender).results[i] == Faithful(LinkFrom(s, sender).log[i])
  {
  }

  lemma {:induction false} EpochParity(trace: seq<Session>, events: seq<Event>, i: nat)
    requires IsRun(trace, events) && i < |trace|
    ensures trace[i].a.epoch % 2 == 1 && trace[i].b.epoch % 2 == 0
  {
    if i > 0 {
      EpochParity(trace, events, i - 1);
    }
  }

  ghost function Plaintexts(log: seq<Sent>): seq<Option<seq<byte>>> {
    seq(|log|, i requires 0 <= i < |log| => Some(log[i].plaintext))
  }

  /** When the responder waits for its first receive, what each side has decrypted is, in
      order, a prefix of what the other side has encrypted. */
  lemma {:induction false} ReceivedIsPrefixOfSent(trace: seq<Session>, events: seq<Event>, k: nat)
    requires IsRun(trace, events) && k < |trace|
    requires forall i :: 0 <= i < |events| && events[i].Send? && events[i].sender == Responder ==>
      trace[i].ab.results != []
    ensures trace[k].ab.results <= Plaintexts(trace[k].ab.log)
    ensures trace[k].ba.results <= Plaintexts(trace[k].ba.log)
  {
    RunKeepsInv(trace, events, k);
    NothingFromEpochZero(trace, events, k);
    var s := trace[k];
    forall i | 0 <= i < |s.ab.results|
      ensures s.ab.results[i] == Some(s.ab.log[i].plaintext)
    {
      assert OnSchedule(s.ab.log[i], s.a, s.secrets);
      EpochParity(trace, events, k);
    }
  }

  /** An event adds to the responder's log only when the responder sends. */
  lemma {:induction false} LogAfter(s: Session, e: Event)
    requires Enabled(s, e) && Inv(s) && s.b.epoch % 2 == 0
    ensures
      var log, after := s.ba.log, Apply(s, e).ba.log;
      if e.Send? && e.sender == Responder
      then log <= after && |after| == |log| + 1 && (after[|log|].epoch == 0 <==> s.ab.results == [])
      else after == log
  {
  }

  lemma {:induction false} NothingFromEpochZero(trace: seq<Session>, events: seq<Event>, k: nat)
    requires IsRun(trace, events) && k < |trace|
    requires forall i :: 0 <= i < |events| && events[i].Send? && events[i].sender == Responder ==>
      trace[i].ab.results != []
    ensures forall i :: 0 <= i < |trace[k].ba.log| ==> trace[k].ba.log[i].epoch != 0
  {
    hide Inv, Apply, Enabled;
    if k > 0 {
      NothingFromEpochZero(trace, events, k - 1);
      RunKeepsInv(trace, events, k - 1);
      EpochParity(trace, events, k - 1);
      assert trace[k] == Apply(trace[k - 1], events[k - 1]);
      LogAfter(trace[k - 1], events[k - 1]);
    }
  }

  /** Number of ratchet steps one side has taken in a run. */
  ghost function RatchetSteps(trace: seq<Session>, events: seq<Event>, role: Role, k: nat): nat
    requires IsRun(trace, events) && k < |trace|
  {
    if k == 0 then 0
    else
      var before := trace[k - 1];
      var view := if role == Responder then before else Flip(before);
      RatchetSteps(trace, events, role, k - 1) +
      if events[k - 1].Deliver? && events[k - 1].receiver == role
         && NeedsRatchetStep(view.b.endpoint, Head(view).msg)
      then 1 else 0
  }

  lemma {:induction false} EpochAfter(s: Session, e: Event)
    requires Enabled(s, e)
    ensures
      var steps := e.Deliver? &&
        (var view := if e.receiver == Responder then s else Flip(s); NeedsRatchetStep(view.b.endpoint, Head(view).msg));
      && Apply(s, e).a.epoch == s.a.epoch + (if steps && e.receiver == Initiator then 2 else 0)
      && Apply(s, e).b.epoch == s.b.epoch + (if steps && e.receiver == Responder then 2 else 0)
  {
  }

  lemma {:induction false} EpochCountsSteps(trace: seq<Session>, events: seq<Event>, k: nat)
    requires IsRun(trace, events) && k < |trace|
    ensures trace[k].a.epoch == 2 * RatchetSteps(trace, events, Initiator, k) + 1
    ensures trace[k].b.epoch == 2 * RatchetSteps(trace, events, Responder, k)
  {
    hide Apply, Enabled, NeedsRatchetStep;
    if k > 0 {
      EpochCountsSteps(trace, events, k - 1);
      EpochAfter(trace[k - 1], events[k - 1]);
    }
  }

  /** The responder is never behind the initiator, and never more than one step ahead. */
  lemma {:induction false} StepsInLockstep(trace: seq<Session>, events: seq<Event>, k: nat)
    requires IsRun(trace, events) && k < |trace|
    ensures 0 <= RatchetSteps(trace, events, Responder, k) - RatchetSteps(trace, events, Initiator, k) <= 1
  {
    EpochCountsSteps(trace, events, k);
    RunKeepsInv(trace, events, k);
  }

  /** At every delivery the receiver's counter, after any reset, is the message's counter. */
  lemma {:induction false} CountersAgreeAtDelivery(trace: seq<Session>, events: seq<Event>, k: nat)
    requires IsRun(trace, events) && k < |events| && events[k].Deliver?
    ensures
      var view := if events[k].receiver == Responder then trace[k] else Flip(trace[k]);
      |view.ab.results| < |view.ab.log| &&
      Synchronized(view.b.endpoint, Head(view).msg, events[k].newSecret).recvCounter == Head(view).msg.counter
  {
    RunKeepsInv(trace, events, k);
    InvFlip(trace[k]);
    var view := if events[k].receiver == Responder then trace[k] else Flip(trace[k]);
    assert Enabled(trace[k], events[k]);
    HeadOfLink(view);
  }

  /** In flight towards `b`: up to `cut` under the key `b` already knows, then under `a`'s own. */
  ghost predicate TwoKeysInOrder(s: Session, cut: nat) {
    && |s.ab.results| <= cut <= |s.ab.log|
    && (forall i :: |s.ab.results| <= i < cut ==>
          s.ab.log[i].msg.dhPublic == s.b.endpoint.theirDhPublic)
    && (forall i :: cut <= i < |s.ab.log| ==>
          s.ab.log[i].msg.dhPublic == PublicOf(s.a.endpoint.dhSecret))
  }

  lemma {:induction false} InFlightToB(s: Session)
    requires Inv(s)
    ensures exists cut :: TwoKeysInOrder(s, cut)
  {
    var cut := |s.ab.results| + OldInFlight(s.ab, s.a, s.b);
    forall i | |s.ab.results| <= i < |s.ab.log|
      ensures s.ab.log[i].msg.dhPublic ==
        if i < cut then s.b.endpoint.theirDhPublic else PublicOf(s.a.endpoint.dhSecret)
    {
      assert OnSchedule(s.ab.log[i], s.a, s.secrets);
    }
    assert TwoKeysInOrder(s, cut);
  }

  /** The messages in flight one way carry at most two public keys, the one the receiver
      already knows and then the sender's current one. */
  lemma {:induction false} InFlightSpansTwoKeys(trace: seq<Session>, events: seq<Event>, k: nat)
    requires IsRun(trace, events) && k < |trace|
    ensures exists cut :: TwoKeysInOrder(trace[k], cut)
    ensures exists cut :: TwoKeysInOrder(Flip(trace[k]), cut)
  {
    RunKeepsInv(trace, events, k);
    InvFlip(trace[k]);
    InFlightToB(trace[k]);
    InFlightToB(Flip(trace[k]));
  }
}
