/**
Which keys determine which others.  `Derivable` is the passive observer's closure: it may apply
the key derivation functions to anything known and combine a known private scalar with any
public key, and nothing else.
*/
module RatchetSecrecy {
  import opened Prelude
  import opened Ratchet
  import opened RatchetSession

  /** Decides by structure whether `t` can be computed from `known`. */
  ghost predicate Derivable(known: set<Term>, t: Term) {
    t in known ||
    match t
    case Shared => false
    case Zeros => true
    case Constant(_) => true
    case DhSecret(_) => false
    case DhOutput(low, high) => DhSecret(low) in known || DhSecret(high) in known
    case Hkdf(input, salt, _) => Derivable(known, input) && Derivable(known, salt)
    case Hmac(key, _) => Derivable(known, key)
  }

  /** `c` contains `known` and is closed under everything an observer can compute. */
  ghost predicate ClosedOver(known: set<Term>, c: iset<Term>) {
    && (forall t :: t in known ==> t in c)
    && Zeros in c
    && (forall l :: Constant(l) in c)
    && (forall i, j :: DhSecret(i) in c || DhSecret(j) in c ==> DhOutput(i, j) in c)
    && (forall i, s, l :: i in c && s in c ==> Hkdf(i, s, l) in c)
    && (forall k, n :: k in c ==> Hmac(k, n) in c)
  }

  /** `Derivable` is exactly the least closed set. */
  lemma {:induction false} DerivableIsLeastClosure(known: set<Term>, t: Term)
    ensures Derivable(known, t) <==> forall c :: ClosedOver(known, c) ==> t in c
  {
    if Derivable(known, t) {
      forall c | ClosedOver(known, c) ensures t in c {
        DerivableInClosed(known, c, t);
      }
    } else {
      var c := iset u | Derivable(known, u);
      assert ClosedOver(known, c);
    }
  }

  lemma {:induction false} DerivableInClosed(known: set<Term>, c: iset<Term>, t: Term)
    requires ClosedOver(known, c) && Derivable(known, t)
    ensures t in c
  {
    if t !in known {
      match t {
        case Hkdf(input, salt, _) =>
          DerivableInClosed(known, c, input);
          DerivableInClosed(known, c, salt);
        case Hmac(key, _) =>
          DerivableInClosed(known, c, key);
        case _ =>
      }
    }
  }

  // ----- The schedule never repeats a key -----

  lemma {:induction false} RootsDistinct(secrets: seq<nat>, e: nat, f: nat)
    requires e < |secrets| && f < |secrets| && Root(secrets, e) == Root(secrets, f)
    ensures e == f
  {
    if e > 0 && f > 0 {
      RootsDistinct(secrets, e - 1, f - 1);
    }
  }

  lemma {:induction false} ChainsDistinct(base: Term, n: nat, base': Term, n': nat)
    requires !base.Hmac? && !base'.Hmac? && ChainAt(base, n) == ChainAt(base', n')
    ensures base == base' && n == n'
  {
    if n > 0 && n' > 0 {
      ChainsDistinct(base, n - 1, base', n' - 1);
    }
  }

  lemma {:induction false} MessageKeysDistinct(secrets: seq<nat>, e: nat, n: nat, f: nat, m: nat)
    requires e < |secrets| && f < |secrets|
    requires MessageKey(secrets, e, n) == MessageKey(secrets, f, m)
    ensures e == f && n == m
  {
    ChainsDistinct(SendBase(secrets, e), n, SendBase(secrets, f), m);
    if e > 0 && f > 0 {
      RootsDistinct(secrets, e, f);
    }
  }

  /** In every run, no two messages, in either direction and over all epochs, are sealed
      under the same key. */
  lemma {:induction false} NoKeyIsReused(trace: seq<Session>, events: seq<Event>, k: nat, i: nat, j: nat)
    requires IsRun(trace, events) && k < |trace|
    ensures i < |trace[k].ab.log| && j < |trace[k].ba.log| ==>
      trace[k].ab.log[i].msg.encrypted.key != trace[k].ba.log[j].msg.encrypted.key
    ensures i < j < |trace[k].ab.log| ==>
      trace[k].ab.log[i].msg.encrypted.key != trace[k].ab.log[j].msg.encrypted.key
    ensures i < j < |trace[k].ba.log| ==>
      trace[k].ba.log[i].msg.encrypted.key != trace[k].ba.log[j].msg.encrypted.key
  {
    RunKeepsInv(trace, events, k);
    InvFlip(trace[k]);
    KeysInLinkDistinct(trace[k], i, j);
    KeysInLinkDistinct(Flip(trace[k]), i, j);
    KeysAcrossLinksDistinct(trace[k], i, j);
  }

  lemma {:induction false} KeysInLinkDistinct(s: Session, i: nat, j: nat)
    requires Inv(s)
    ensures i < j < |s.ab.log| ==> s.ab.log[i].msg.encrypted.key != s.ab.log[j].msg.encrypted.key
  {
    if i < j < |s.ab.log| {
      var m, n := s.ab.log[i], s.ab.log[j];
      assert OnSchedule(m, s.a, s.secrets) && OnSchedule(n, s.a, s.secrets) && Before(m, n);
      if m.msg.encrypted.key == n.msg.encrypted.key {
        MessageKeysDistinct(s.secrets, m.epoch, m.msg.counter, n.epoch, n.msg.counter);
      }
    }
  }

  lemma {:induction false} KeysAcrossLinksDistinct(s: Session, i: nat, j: nat)
    requires Inv(s)
    ensures i < |s.ab.log| && j < |s.ba.log| ==>
      s.ab.log[i].msg.encrypted.key != s.ba.log[j].msg.encrypted.key
  {
    if i < |s.ab.log| && j < |s.ba.log| {
      var m, n := s.ab.log[i], s.ba.log[j];
      assert OnSchedule(m, s.a, s.secrets) && OnSchedule(n, s.b, s.secrets);
      if m.msg.encrypted.key == n.msg.encrypted.key {
        MessageKeysDistinct(s.secrets, m.epoch, m.msg.counter, n.epoch, n.msg.counter);
      }
    }
  }

  // ----- What determines a message key -----

  lemma {:induction false} ChainDerivable(known: set<Term>, base: Term, n: nat)
    ensures Derivable(known, ChainAt(base, n)) <==>
      Derivable(known, base) || exists i :: 0 <= i <= n && ChainAt(base, i) in known
  {
    if n > 0 {
      ChainDerivable(known, base, n - 1);
    } else if ChainAt(base, 0) in known {
      assert 0 <= 0 <= n;
    }
  }

  /** Neither root keys nor chain keys of other epochs, nor message keys, help without the
      secret the handshake agreed on. */
  lemma {:induction false} RootNotDerivable(known: set<Term>, secrets: seq<nat>, e: nat)
    requires e < |secrets|
    requires forall f :: 0 <= f <= e ==> Root(secrets, f) !in known
    ensures !Derivable(known, Root(secrets, e))
  {
    if e > 0 {
      RootNotDerivable(known, secrets, e - 1);
    }
  }

  /** What the responder uses before its first receive is known to everyone: its chain starts
      at zeros. */
  lemma {:induction false} EpochZeroIsPublic(known: set<Term>, secrets: seq<nat>, n: nat)
    requires |secrets| > 0
    ensures Derivable(known, ChainAt(SendBase(secrets, 0), n)) && Derivable(known, MessageKey(secrets, 0, n))
  {
    if n > 0 {
      EpochZeroIsPublic(known, secrets, n - 1);
    }
  }

  /** A message key can be computed from all the other message keys together exactly when it is
      of epoch 0, and then from nothing. */
  lemma {:induction false} MessageKeyIndependent(known: set<Term>, secrets: seq<nat>, e: nat, n: nat)
    requires e < |secrets|
    requires forall t :: t in known ==>
      exists f: nat, m: nat :: f < |secrets| && t == MessageKey(secrets, f, m) && (f != e || m != n)
    ensures Derivable(known, MessageKey(secrets, e, n)) <==> e == 0
  {
    if e == 0 {
      EpochZeroIsPublic(known, secrets, n);
    } else {
      LaterKeyIndependent(known, secrets, e, n);
    }
  }

  lemma {:induction false} LaterKeyIndependent(known: set<Term>, secrets: seq<nat>, e: nat, n: nat)
    requires 0 < e < |secrets|
    requires forall t :: t in known ==>
      exists f: nat, m: nat :: f < |secrets| && t == MessageKey(secrets, f, m) && (f != e || m != n)
    ensures !Derivable(known, MessageKey(secrets, e, n))
  {
    forall f: nat | f <= e ensures Root(secrets, f) !in known {
    }
    RootNotDerivable(known, secrets, e);
    ChainDerivable(known, SendBase(secrets, e), n);
    if MessageKey(secrets, e, n) in known {
      var f: nat, m: nat :| f < |secrets| && MessageKey(secrets, e, n) == MessageKey(secrets, f, m)
          && (f != e || m != n);
      MessageKeysDistinct(secrets, e, n, f, m);
    }
    if i :| 0 <= i <= n && ChainAt(SendBase(secrets, e), i) in known {
      var f: nat, m: nat :| f < |secrets| && ChainAt(SendBase(secrets, e), i) == MessageKey(secrets, f, m);
    }
  }

  /** A chain key determines the message keys of its own chain from its position on, and no
      earlier one and none of any other chain, save those of epoch 0. */
  lemma {:induction false} ChainKeyRevealsOnlyLater(secrets: seq<nat>, e: nat, n: nat, f: nat, m: nat)
    requires e < |secrets| && f < |secrets|
    ensures Derivable({ChainAt(SendBase(secrets, e), n)}, MessageKey(secrets, f, m))
      <==> f == 0 || (f == e && n <= m)
  {
    var known := {ChainAt(SendBase(secrets, e), n)};
    if f == 0 {
      EpochZeroIsPublic(known, secrets, m);
    } else {
      RootNotDerivable(known, secrets, f);
      ChainDerivable(known, SendBase(secrets, f), m);
      forall i: nat | ChainAt(SendBase(secrets, f), i) in known ensures f == e && i == n {
        ChainsDistinct(SendBase(secrets, f), i, SendBase(secrets, e), n);
        RootsDistinct(secrets, e, f);
      }
    }
  }

  /** Everything an endpoint stores. */
  ghost function Contents(e: Endpoint): set<Term> {
    {e.rootKey, e.chainKeySend, e.chainKeyRecv, DhSecret(e.dhSecret)}
  }

  lemma {:induction false} RootFromContents(p: Party, secrets: seq<nat>, f: nat)
    requires PartyOk(p, secrets) && Distinct(secrets) && f < |secrets|
    ensures Derivable(Contents(p.endpoint), Root(secrets, f)) <==> f == p.epoch || f == p.epoch + 1
  {
    if Root(secrets, f) == p.endpoint.rootKey {
      RootsDistinct(secrets, f, p.epoch);
    }
    if f > 0 {
      RootFromContents(p, secrets, f - 1);
    }
  }

  /** Which message keys the full contents of an endpoint determine: those of epoch 0, which
      need nothing; since the root key of the current epoch and the current secret are stored,
      those of that epoch and of the peer's next one; of the epoch listened to, those not yet
      used.  All other epochs, past and later, are out of reach. */
  lemma {:induction false} ContentsReveal(p: Party, secrets: seq<nat>, f: nat, m: nat)
    requires PartyOk(p, secrets) && Distinct(secrets) && f < |secrets|
    ensures Derivable(Contents(p.endpoint), MessageKey(secrets, f, m)) <==>
      f == 0 || f == p.epoch || f == p.epoch + 1 || (f + 1 == p.epoch && p.endpoint.recvCounter <= m)
  {
    hide PartyOk, Distinct, Contents;
    if f == 0 {
      EpochZeroIsPublic(Contents(p.endpoint), secrets, m);
    } else {
      LaterContentsReveal(p, secrets, f, m);
    }
  }

  lemma {:induction false} LaterContentsReveal(p: Party, secrets: seq<nat>, f: nat, m: nat)
    requires PartyOk(p, secrets) && Distinct(secrets) && 0 < f < |secrets|
    ensures Derivable(Contents(p.endpoint), MessageKey(secrets, f, m)) <==>
      f == p.epoch || f == p.epoch + 1 || (f + 1 == p.epoch && p.endpoint.recvCounter <= m)
  {
    var known := Contents(p.endpoint);
    var base := SendBase(secrets, f);
    RootFromContents(p, secrets, f);
    MessageKeyNotStored(p, secrets, f, m);
    BaseFromContents(p, secrets, f);
    ChainDerivable(known, base, m);
    if i: nat :| i <= m && ChainAt(base, i) in known {
      ChainInContents(p, secrets, f, i);
    }
    if f + 1 == p.epoch && p.endpoint.recvCounter <= m {
      ChainInContents(p, secrets, f, p.endpoint.recvCounter);
    }
  }

  lemma {:induction false} MessageKeyNotStored(p: Party, secrets: seq<nat>, f: nat, m: nat)
    requires PartyOk(p, secrets) && f < |secrets|
    ensures MessageKey(secrets, f, m) !in Contents(p.endpoint)
  {
    assert ChainAt(SendBase(secrets, p.epoch), p.endpoint.sendCounter) == p.endpoint.chainKeySend;
  }

  lemma {:induction false} BaseFromContents(p: Party, secrets: seq<nat>, f: nat)
    requires PartyOk(p, secrets) && 0 < f < |secrets|
    ensures Derivable(Contents(p.endpoint), Root(secrets, f)) ==> Derivable(Contents(p.endpoint), SendBase(secrets, f))
    ensures Derivable(Contents(p.endpoint), SendBase(secrets, f)) ==>
      Derivable(Contents(p.endpoint), Root(secrets, f)) || ChainAt(SendBase(secrets, f), 0) in Contents(p.endpoint)
  {
    assert SendBase(secrets, f) == Hkdf(Root(secrets, f), Constant(CipherChain), SendChain);
  }

  /** Which positions of the chains of the schedule an endpoint holds. */
  lemma {:induction false} ChainInContents(p: Party, secrets: seq<nat>, f: nat, i: nat)
    requires PartyOk(p, secrets) && 0 < f < |secrets|
    ensures ChainAt(SendBase(secrets, f), i) in Contents(p.endpoint) <==>
      || (f == p.epoch && i == p.endpoint.sendCounter)
      || (f + 1 == p.epoch && i == p.endpoint.recvCounter)
  {
    var chain := ChainAt(SendBase(secrets, f), i);
    assert chain != p.endpoint.rootKey && !chain.DhSecret?;
    if chain == p.endpoint.chainKeySend {
      ChainsDistinct(SendBase(secrets, f), i, SendBase(secrets, p.epoch), p.endpoint.sendCounter);
      RootsDistinct(secrets, f, p.epoch);
    }
    if chain == p.endpoint.chainKeyRecv {
      assert p.epoch > 0;
      ChainsDistinct(SendBase(secrets, f), i, RecvBase(secrets, p.epoch - 1), p.endpoint.recvCounter);
      RootsDistinct(secrets, f, if p.epoch == 1 then 1 else p.epoch - 1);
    }
  }

  // ----- The same for runs -----

  lemma {:induction false} PartiesStayOnSchedule(trace: seq<Session>, events: seq<Event>, i: nat, k: nat)
    requires IsRun(trace, events) && i <= k < |trace|
    ensures PartyOk(trace[i].a, trace[k].secrets) && PartyOk(trace[i].b, trace[k].secrets)
    ensures Distinct(trace[k].secrets)
    decreases k
  {
    hide Apply, Enabled, PartyOk, LinkOk;
    RunKeepsInv(trace, events, i);
    RunKeepsInv(trace, events, k);
    if i < k {
      PartiesStayOnSchedule(trace, events, i, k - 1);
      SecretsGrow(trace[k - 1], events[k - 1]);
      if trace[k].secrets != trace[k - 1].secrets {
        PartyStable(trace[i].a, trace[k - 1].secrets, events[k - 1].newSecret);
        PartyStable(trace[i].b, trace[k - 1].secrets, events[k - 1].newSecret);
      }
    }
  }

  lemma {:induction false} SecretsGrow(s: Session, e: Event)
    requires Enabled(s, e)
    ensures Apply(s, e).secrets == s.secrets
      || (e.Deliver? && Apply(s, e).secrets == s.secrets + [e.newSecret])
  {
  }

  ghost function PartyOf(s: Session, role: Role): Party { if role == Initiator then s.a else s.b }

  ghost function Peer(role: Role): Role { if role == Initiator then Responder else Initiator }

  /** The responder sends at step `i` without having received anything. */
  ghost predicate SentBeforeReceiving(trace: seq<Session>, events: seq<Event>, i: nat)
    requires i < |events| && i < |trace| && events[i].Send?
  {
    events[i].sender == Responder && trace[i].ab.results == []
  }

  /** The log entry of the message sent at step `i`, as it stands at step `k`. */
  ghost function EntryOf(trace: seq<Session>, events: seq<Event>, i: nat, k: nat): Sent
    requires IsRun(trace, events) && i < |events| && events[i].Send? && i < k < |trace|
  {
    SentEntry(trace, events, i, k);
    LinkFrom(trace[k], events[i].sender).log[|LinkFrom(trace[i], events[i].sender).log|]
  }

  ghost function KeyOf(trace: seq<Session>, events: seq<Event>, i: nat, k: nat): Term
    requires IsRun(trace, events) && i < |events| && events[i].Send? && i < k < |trace|
  {
    EntryOf(trace, events, i, k).msg.encrypted.key
  }

  /** What is sent stays in the log, under the sender's epoch and public key at that time. */
  lemma {:induction false} SentEntry(trace: seq<Session>, events: seq<Event>, i: nat, k: nat)
    requires IsRun(trace, events) && i < |events| && events[i].Send? && i < k < |trace|
    ensures
      var sender := events[i].sender;
      var position, log := |LinkFrom(trace[i], sender).log|, LinkFrom(trace[k], sender).log;
      && position < |log|
      && log[position].msg == Encrypted(PartyOf(trace[i], sender).endpoint, events[i].plaintext, events[i].nonce)
      && log[position].epoch == PartyOf(trace[i], sender).epoch
      && (log[position].epoch == 0 <==> SentBeforeReceiving(trace, events, i))
  {
    hide Inv, Apply, Enabled;
    RunKeepsInv(trace, events, i);
    HistoryGrows(trace, events, i + 1, k);
    EpochParity(trace, events, i);
    assert trace[i + 1] == Apply(trace[i], events[i]);
    SendAppends(trace[i], events[i]);
    SendLogs(trace[i], events[i]);
  }

  lemma {:induction false} SendLogs(s: Session, e: Event)
    requires e.Send?
    ensures
      var log, after, p := LinkFrom(s, e.sender).log, LinkFrom(Apply(s, e), e.sender).log, PartyOf(s, e.sender);
      after == log + [Sent(p.epoch, e.plaintext, Encrypted(p.endpoint, e.plaintext, e.nonce))]
  {
  }

  /** What is on the wire for a send: the sender's public key and counter at that time, and the
      plaintext sealed, under the nonce drawn for it, with tag 1 of the sender's chain key. */
  lemma {:induction false} MessageOnWire(trace: seq<Session>, events: seq<Event>, i: nat, k: nat)
    requires IsRun(trace, events) && i < |events| && events[i].Send? && i < k < |trace|
    ensures
      var sender := PartyOf(trace[i], events[i].sender).endpoint;
      EntryOf(trace, events, i, k).msg == RatchetMessage(PublicOf(sender.dhSecret), sender.sendCounter,
        Sealed(Hmac(sender.chainKeySend, 1), events[i].nonce, events[i].plaintext))
  {
    hide IsRun;
    SentEntry(trace, events, i, k);
  }

  /** The entry of a sent message is on the schedule, and, once delivered, passed by. */
  lemma {:induction false} EntryOnSchedule(trace: seq<Session>, events: seq<Event>, i: nat, k: nat)
    requires IsRun(trace, events) && i < |events| && events[i].Send? && i < k < |trace|
    ensures
      var s, sender, m := trace[k], events[i].sender, EntryOf(trace, events, i, k);
      && PartyOk(s.a, s.secrets) && PartyOk(s.b, s.secrets) && Distinct(s.secrets)
      && OnSchedule(m, PartyOf(s, sender), s.secrets)
      && (|LinkFrom(trace[i], sender).log| < |LinkFrom(s, sender).results| ==>
            AlreadyPassed(m, PartyOf(s, Peer(sender))))
  {
    hide PartyOk, OnSchedule, AlreadyPassed, Distinct, IsRun;
    RunKeepsInv(trace, events, k);
    SentEntry(trace, events, i, k);
  }

  /** A message key can be computed by everyone exactly when the responder sent the message
      before it had received anything. */
  lemma {:induction false} KeyIsPublicIff(trace: seq<Session>, events: seq<Event>, i: nat, k: nat)
    requires IsRun(trace, events) && i < |events| && events[i].Send? && i < k < |trace|
    ensures (forall known :: Derivable(known, KeyOf(trace, events, i, k))) <==> SentBeforeReceiving(trace, events, i)
  {
    hide IsRun, PartyOk, Derivable;
    SentEntry(trace, events, i, k);
    EntryOnSchedule(trace, events, i, k);
    var m, secrets := EntryOf(trace, events, i, k), trace[k].secrets;
    var key := KeyOf(trace, events, i, k);
    assert key == MessageKey(secrets, m.epoch, m.msg.counter);
    if m.epoch == 0 {
      forall known ensures Derivable(known, key) {
        EpochZeroIsPublic(known, secrets, m.msg.counter);
      }
    } else {
      var nothing: set<Term> := {};
      MessageKeyIndependent(nothing, secrets, m.epoch, m.msg.counter);
      assert !Derivable(nothing, key);
    }
  }

  /** Forward secrecy on the receiving side: once a message is received, all the receiver still
      stores determines its key exactly when the responder sent it before it had received
      anything, which is when the message was rejected. */
  lemma {:induction false} ReceivedKeysAreGone(trace: seq<Session>, events: seq<Event>, i: nat, k: nat)
    requires IsRun(trace, events) && i < |events| && events[i].Send? && i < k < |trace|
    requires |LinkFrom(trace[i], events[i].sender).log| < |LinkFrom(trace[k], events[i].sender).results|
    ensures
      var sender := events[i].sender;
      var receiver := PartyOf(trace[k], Peer(sender)).endpoint;
      && (Derivable(Contents(receiver), KeyOf(trace, events, i, k)) <==> SentBeforeReceiving(trace, events, i))
      && (LinkFrom(trace[k], sender).results[|LinkFrom(trace[i], sender).log|].None?
          <==> SentBeforeReceiving(trace, events, i))
  {
    hide IsRun, PartyOk, Derivable, Contents;
    SentEntry(trace, events, i, k);
    EntryOnSchedule(trace, events, i, k);
    DeliveredMessageDecrypts(trace, events, i, k);
    var m := EntryOf(trace, events, i, k);
    ContentsReveal(PartyOf(trace[k], Peer(events[i].sender)), trace[k].secrets, m.epoch, m.msg.counter);
  }

  /** On the sending side the root key is kept: all the sender stores later determines the key of
      a message exactly while the sender has not ratcheted since, or if the responder sent it
      before it had received anything. */
  lemma {:induction false} SentKeysAreGoneAfterRatchet(trace: seq<Session>, events: seq<Event>, i: nat, k: nat)
    requires IsRun(trace, events) && i < |events| && events[i].Send? && i < k < |trace|
    ensures
      var before, now := PartyOf(trace[i], events[i].sender).endpoint, PartyOf(trace[k], events[i].sender).endpoint;
      Derivable(Contents(now), KeyOf(trace, events, i, k)) <==>
        now.dhSecret == before.dhSecret || SentBeforeReceiving(trace, events, i)
  {
    hide IsRun, Derivable, Contents;
    SentEntry(trace, events, i, k);
    EntryOnSchedule(trace, events, i, k);
    var m, now := EntryOf(trace, events, i, k), PartyOf(trace[k], events[i].sender);
    ContentsReveal(now, trace[k].secrets, m.epoch, m.msg.counter);
    assert m.msg.dhPublic == PublicOf(PartyOf(trace[i], events[i].sender).endpoint.dhSecret);
    assert m.msg.dhPublic == PublicOf(trace[k].secrets[m.epoch]);
  }

  /** Recovery: what is sent two or more epochs later is out of reach of the state stored
      at step `i`, however the run continues. */
  lemma {:induction false} LaterEpochsRecover(trace: seq<Session>, events: seq<Event>, i: nat, k: nat, j: nat, p: Party)
    requires IsRun(trace, events) && i <= k < |trace|
    requires p == trace[i].a || p == trace[i].b
    ensures j < |trace[k].ab.log| && trace[k].ab.log[j].epoch >= p.epoch + 2 ==>
      !Derivable(Contents(p.endpoint), trace[k].ab.log[j].msg.encrypted.key)
    ensures j < |trace[k].ba.log| && trace[k].ba.log[j].epoch >= p.epoch + 2 ==>
      !Derivable(Contents(p.endpoint), trace[k].ba.log[j].msg.encrypted.key)
  {
    RunKeepsInv(trace, events, k);
    PartiesStayOnSchedule(trace, events, i, k);
    var s := trace[k];
    if j < |s.ab.log| && s.ab.log[j].epoch >= p.epoch + 2 {
      assert OnSchedule(s.ab.log[j], s.a, s.secrets);
      ContentsReveal(p, s.secrets, s.ab.log[j].epoch, s.ab.log[j].msg.counter);
    }
    if j < |s.ba.log| && s.ba.log[j].epoch >= p.epoch + 2 {
      assert OnSchedule(s.ba.log[j], s.b, s.secrets);
      ContentsReveal(p, s.secrets, s.ba.log[j].epoch, s.ba.log[j].msg.counter);
    }
  }
}
