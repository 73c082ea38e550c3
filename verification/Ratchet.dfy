/**
The Double Ratchet endpoint of `client-core/src/encryption.rs`.

Keys are terms of a free algebra: two derivations give the same key exactly when they apply the
same function to the same inputs.  Diffie-Hellman outputs are unordered pairs of secrets, so
both sides of an exchange obtain the same term.  A sealed message opens under the key that
sealed it and under no other.
*/
module Ratchet {
  import opened Prelude

  datatype Label = RatchetRoot | SendChain | RecvChain | CipherChain

  datatype Term =
    | Shared                                        // the secret agreed by the handshake
    | Zeros                                         // [0u8; 32]
    | Constant(name: Label)                        // a fixed byte string
    | DhSecret(n: nat)                              // a private X25519 scalar
    | DhOutput(low: nat, high: nat)                 // the output of an exchange
    | Hkdf(input: Term, salt: Term, info: Label)
    | Hmac(key: Term, tag: nat)

  datatype PublicKey = ZeroPublic | PublicOf(secret: nat)

  datatype EncryptedMessage = Sealed(key: Term, nonce: nat, plaintext: seq<byte>)

  datatype RatchetMessage =
    RatchetMessage(dhPublic: PublicKey, counter: nat, encrypted: EncryptedMessage)

  function DiffieHellman(secret: nat, public: PublicKey): Term {
    match public
    case ZeroPublic => Zeros
    case PublicOf(s) => if secret <= s then DhOutput(secret, s) else DhOutput(s, secret)
  }

  function RootKdf(dh: Term, root: Term): Term { Hkdf(dh, root, RatchetRoot) }

  function ChainKdf(root: Term, info: Label): Term { Hkdf(root, Constant(CipherChain), info) }

  function AesOpen(key: Term, sealed: EncryptedMessage): Option<seq<byte>> {
    if sealed.key == key then Some(sealed.plaintext) else None
  }

  /** The fields of a session, as a value. */
  datatype Endpoint = Endpoint(
    rootKey: Term,
    chainKeySend: Term,
    chainKeyRecv: Term,
    dhSecret: nat,
    theirDhPublic: PublicKey,
    sendCounter: nat,
    recvCounter: nat)

  function SenderEndpoint(shared: Term, their: PublicKey, newSecret: nat): Endpoint {
    var root := RootKdf(DiffieHellman(newSecret, their), shared);
    Endpoint(root, ChainKdf(root, SendChain), ChainKdf(root, RecvChain), newSecret, their, 0, 0)
  }

  function ReceiverEndpoint(shared: Term, secret: nat): Endpoint {
    Endpoint(shared, Zeros, Zeros, secret, ZeroPublic, 0, 0)
  }

  function AfterEncrypt(e: Endpoint): Endpoint {
    e.(chainKeySend := Hmac(e.chainKeySend, 2), sendCounter := e.sendCounter + 1)
  }

  function Encrypted(e: Endpoint, plaintext: seq<byte>, nonce: nat): RatchetMessage {
    RatchetMessage(PublicOf(e.dhSecret), e.sendCounter,
                   Sealed(Hmac(e.chainKeySend, 1), nonce, plaintext))
  }

  /** The state after meeting a new public key: the receiving chain comes from one root
      step with the current secret, the sending chain from a second one with a fresh secret. */
  function AfterRatchetStep(e: Endpoint, their: PublicKey, newSecret: nat): Endpoint {
    var middle := RootKdf(DiffieHellman(e.dhSecret, their), e.rootKey);
    var root := RootKdf(DiffieHellman(newSecret, their), middle);
    Endpoint(root, ChainKdf(root, SendChain), ChainKdf(middle, SendChain), newSecret, their, 0, 0)
  }

  predicate NeedsRatchetStep(e: Endpoint, msg: RatchetMessage) {
    msg.dhPublic != e.theirDhPublic
  }

  /** The receiving side of a session once the step, if any, has been taken. */
  function Synchronized(e: Endpoint, msg: RatchetMessage, newSecret: nat): Endpoint {
    if NeedsRatchetStep(e, msg) then AfterRatchetStep(e, msg.dhPublic, newSecret) else e
  }

  function AfterDecrypt(e: Endpoint, msg: RatchetMessage, newSecret: nat): Endpoint {
    var ready := Synchronized(e, msg, newSecret);
    ready.(chainKeyRecv := Hmac(ready.chainKeyRecv, 2), recvCounter := ready.recvCounter + 1)
  }

  function Decrypted(e: Endpoint, msg: RatchetMessage, newSecret: nat): Option<seq<byte>> {
    AesOpen(Hmac(Synchronized(e, msg, newSecret).chainKeyRecv, 1), msg.encrypted)
  }

  /** Both sides of an exchange obtain the same output. */
  lemma {:induction false} ExchangeAgrees(a: nat, b: nat)
    ensures DiffieHellman(a, PublicOf(b)) == DiffieHellman(b, PublicOf(a))
  {
  }

  /** One side of a session, updated in place.  Randomness (`newSecret`, `nonce`) is a parameter. */
  class DoubleRatchet {
    var rootKey: Term
    var chainKeySend: Term
    var chainKeyRecv: Term
    var dhSecret: nat
    var theirDhPublic: PublicKey
    var sendCounter: nat
    var recvCounter: nat

    function State(): Endpoint
      reads this
    {
      Endpoint(rootKey, chainKeySend, chainKeyRecv, dhSecret, theirDhPublic, sendCounter, recvCounter)
    }

    constructor InitSender(shared: Term, their: PublicKey, newSecret: nat)
      ensures State() == SenderEndpoint(shared, their, newSecret)
    {
      var output := DiffieHellman(newSecret, their);
      var root := Hkdf(output, shared, RatchetRoot);
      rootKey := root;
      chainKeySend := Hkdf(root, Constant(CipherChain), SendChain);
      chainKeyRecv := Hkdf(root, Constant(CipherChain), RecvChain);
      dhSecret := newSecret;
      theirDhPublic := their;
      sendCounter := 0;
      recvCounter := 0;
    }

    constructor InitReceiver(shared: Term, ourSecret: nat)
      ensures State() == ReceiverEndpoint(shared, ourSecret)
    {
      rootKey := shared;
      chainKeySend := Zeros;
      chainKeyRecv := Zeros;
      dhSecret := ourSecret;
      theirDhPublic := ZeroPublic;
      sendCounter := 0;
      recvCounter := 0;
    }

    method Encrypt(plaintext: seq<byte>, nonce: nat) returns (msg: RatchetMessage)
      modifies this
      ensures State() == AfterEncrypt(old(State()))
      ensures msg == Encrypted(old(State()), plaintext, nonce)
    {
      var messageKey := AdvanceChainSend();
      var encrypted := Sealed(messageKey, nonce, plaintext);
      var dhPublic := PublicOf(dhSecret);
      var counter := sendCounter;
      sendCounter := sendCounter + 1;
      msg := RatchetMessage(dhPublic, counter, encrypted);
    }

    method Decrypt(msg: RatchetMessage, newSecret: nat) returns (plaintext: Option<seq<byte>>)
      modifies this
      ensures State() == AfterDecrypt(old(State()), msg, newSecret)
      ensures plaintext == Decrypted(old(State()), msg, newSecret)
    {
      if msg.dhPublic != theirDhPublic {
        DhRatchetStep(msg.dhPublic, newSecret);
      }
      var messageKey := AdvanceChainRecv();
      recvCounter := recvCounter + 1;
      plaintext := AesOpen(messageKey, msg.encrypted);
    }

    method DhRatchetStep(newTheirPublic: PublicKey, newSecret: nat)
      modifies this
      ensures State() == AfterRatchetStep(old(State()), newTheirPublic, newSecret)
    {
      theirDhPublic := newTheirPublic;
      var output := DiffieHellman(dhSecret, theirDhPublic);
      var newRoot := Hkdf(output, rootKey, RatchetRoot);
      chainKeyRecv := Hkdf(newRoot, Constant(CipherChain), SendChain);
      dhSecret := newSecret;
      var newOutput := DiffieHellman(dhSecret, theirDhPublic);
      rootKey := Hkdf(newOutput, newRoot, RatchetRoot);
      chainKeySend := Hkdf(rootKey, Constant(CipherChain), SendChain);
      sendCounter := 0;
      recvCounter := 0;
    }

    method AdvanceChainSend() returns (messageKey: Term)
      modifies this
      ensures State() == old(State()).(chainKeySend := Hmac(old(chainKeySend), 2))
      ensures messageKey == Hmac(old(chainKeySend), 1)
    {
      messageKey := Hmac(chainKeySend, 1);
      chainKeySend := Hmac(chainKeySend, 2);
    }

    method AdvanceChainRecv() returns (messageKey: Term)
      modifies this
      ensures State() == old(State()).(chainKeyRecv := Hmac(old(chainKeyRecv), 2))
      ensures messageKey == Hmac(old(chainKeyRecv), 1)
    {
      messageKey := Hmac(chainKeyRecv, 1);
      chainKeyRecv := Hmac(chainKeyRecv, 2);
    }
  }
}
