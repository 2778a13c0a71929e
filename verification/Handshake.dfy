/**
 The authenticated handshake of lib/handshake.js, lines 67 to 146. Random bytes are
 parameters and Ed25519 is a triple of functions.
 */
module Handshake {
  import opened Results
  import opened Text
  import opened LadderCorrectness
  import opened Encoding
  import X25519

  datatype Signatures = Signatures(
    sign: (seq<Byte>, seq<Byte>) -> seq<Byte>,
    verify: (seq<Byte>, seq<Byte>, seq<Byte>) -> bool,
    publicKey: seq<Byte> -> seq<Byte>)

  /** Signatures have their fixed lengths and verify under the signer's public key. */
  ghost predicate Correct(c: Signatures) {
    forall m, s | |s| == 32 :: Signed(c, m, s)
  }

  ghost predicate Signed(c: Signatures, m: seq<Byte>, s: seq<Byte>) {
    |c.sign(m, s)| == 64 && |c.publicKey(s)| == 32 && c.verify(m, c.sign(m, s), c.publicKey(s))
  }

  function Ed25519Sign(c: Signatures, message: seq<Byte>, seed: seq<Byte>): Result<seq<Byte>> {
    if |seed| != 32 then Failure("Ed25519 seed must be 32 bytes") else Ok(c.sign(message, seed))
  }

  predicate Ed25519Verify(c: Signatures, message: seq<Byte>, signature: seq<Byte>, key: seq<Byte>) {
    |key| == 32 && |signature| == 64 && c.verify(message, signature, key)
  }

  function Transcript(ephemeral: seq<Byte>): seq<Byte> {
    Ascii("NZ-CRYPTO-02/handshake/v1") + ephemeral
  }

  datatype AliceHello = AliceHello(secret: seq<Byte>, ephemeral: seq<Byte>, signature: seq<Byte>)
  datatype BobHello = BobHello(secret: seq<Byte>, ephemeral: seq<Byte>, signature: seq<Byte>, shared: seq<Byte>)

  function AliceStart(c: Signatures, random: seq<Byte>, seed: seq<Byte>): Result<AliceHello> {
    match X25519.SharedBase(random)
    case Failure(e) => Failure(e)
    case Ok(ephemeral) =>
      match Ed25519Sign(c, Transcript(ephemeral), seed)
      case Failure(e) => Failure(e)
      case Ok(signature) => Ok(AliceHello(random, ephemeral, signature))
  }

  function BobRespond(c: Signatures, random: seq<Byte>, aliceEphemeral: seq<Byte>, aliceSignature: seq<Byte>,
                      aliceKey: seq<Byte>, bobSeed: seq<Byte>): Result<BobHello>
  {
    if !Ed25519Verify(c, Transcript(aliceEphemeral), aliceSignature, aliceKey) then
      Failure("Alice identity signature invalid")
    else
      match X25519.SharedBase(random)
      case Failure(e) => Failure(e)
      case Ok(ephemeral) =>
        match Ed25519Sign(c, Transcript(ephemeral), bobSeed)
        case Failure(e) => Failure(e)
        case Ok(signature) =>
          match X25519.Shared(random, aliceEphemeral)
          case Failure(e) => Failure(e)
          case Ok(shared) => Ok(BobHello(random, ephemeral, signature, shared))
  }

  function AliceFinish(c: Signatures, secret: seq<Byte>, bobEphemeral: seq<Byte>, bobSignature: seq<Byte>,
                       bobKey: seq<Byte>): Result<seq<Byte>>
  {
    if !Ed25519Verify(c, Transcript(bobEphemeral), bobSignature, bobKey) then
      Failure("Bob identity signature invalid")
    else X25519.Shared(secret, bobEphemeral)
  }

  /** An unaltered run succeeds on both sides and ends with equal 32-byte secrets. */
  lemma HonestRun(c: Signatures, aliceRandom: seq<Byte>, bobRandom: seq<Byte>, aliceSeed: seq<Byte>, bobSeed: seq<Byte>)
    requires Correct(c) && GroupHypotheses(1)
    requires |aliceRandom| == 32 && |bobRandom| == 32 && |aliceSeed| == 32 && |bobSeed| == 32
    ensures var hello := AliceStart(c, aliceRandom, aliceSeed);
      hello.Ok? &&
      var reply := BobRespond(c, bobRandom, hello.value.ephemeral, hello.value.signature,
                              c.publicKey(aliceSeed), bobSeed);
      reply.Ok? &&
      var secret := AliceFinish(c, hello.value.secret, reply.value.ephemeral, reply.value.signature,
                                c.publicKey(bobSeed));
      secret.Ok? && secret.value == reply.value.shared && |secret.value| == 32
  {
    hide X25519.SharedBase, X25519.Shared, GroupHypotheses, Transcript;
    X25519.KeyAgreement(aliceRandom, bobRandom);
    var hello := AliceStart(c, aliceRandom, aliceSeed).value;
    assert Signed(c, Transcript(hello.ephemeral), aliceSeed);
    var bobEphemeral := X25519.SharedBase(bobRandom).value;
    assert Signed(c, Transcript(bobEphemeral), bobSeed);
  }

  // ----- What is sent and what is accepted -----

  /** Alice's message: her ephemeral key and her signature over the label and that key. */
  lemma AliceSends(c: Signatures, random: seq<Byte>, seed: seq<Byte>)
    ensures AliceStart(c, random, seed).Ok? <==> |random| == 32 && |seed| == 32
    ensures |random| == 32 && |seed| == 32 ==>
      var ephemeral := X25519.SharedBase(random).value;
      AliceStart(c, random, seed)
        == Ok(AliceHello(random, ephemeral, c.sign(Ascii("NZ-CRYPTO-02/handshake/v1") + ephemeral, seed)))
    ensures |random| == 32 && |seed| != 32 ==>
      AliceStart(c, random, seed) == Failure("Ed25519 seed must be 32 bytes")
  {
  }

  /** Bob answers exactly a message whose signature verifies over the label and the ephemeral key, of fixed lengths. */
  lemma BobSends(c: Signatures, random: seq<Byte>, aliceEphemeral: seq<Byte>, aliceSignature: seq<Byte>,
                 aliceKey: seq<Byte>, seed: seq<Byte>)
    ensures BobRespond(c, random, aliceEphemeral, aliceSignature, aliceKey, seed).Ok? <==>
      && |aliceKey| == 32 && |aliceSignature| == 64
      && c.verify(Ascii("NZ-CRYPTO-02/handshake/v1") + aliceEphemeral, aliceSignature, aliceKey)
      && |random| == 32 && |seed| == 32 && |aliceEphemeral| == 32
    ensures var r := BobRespond(c, random, aliceEphemeral, aliceSignature, aliceKey, seed);
      r.Ok? ==>
        var ephemeral := X25519.SharedBase(random).value;
        && r.value.secret == random && r.value.ephemeral == ephemeral
        && r.value.signature == c.sign(Ascii("NZ-CRYPTO-02/handshake/v1") + ephemeral, seed)
        && Ok(r.value.shared) == X25519.Shared(random, aliceEphemeral)
  {
    hide X25519.Public;
  }

  /** Alice finishes under the same condition on Bob's message, with the secret of her key and his. */
  lemma AliceAccepts(c: Signatures, secret: seq<Byte>, bobEphemeral: seq<Byte>, bobSignature: seq<Byte>,
                     bobKey: seq<Byte>)
    ensures AliceFinish(c, secret, bobEphemeral, bobSignature, bobKey).Ok? <==>
      && |bobKey| == 32 && |bobSignature| == 64
      && c.verify(Ascii("NZ-CRYPTO-02/handshake/v1") + bobEphemeral, bobSignature, bobKey)
      && |secret| == 32 && |bobEphemeral| == 32
    ensures var r := AliceFinish(c, secret, bobEphemeral, bobSignature, bobKey);
      r.Ok? ==> r == X25519.Shared(secret, bobEphemeral)
  {
    hide X25519.Public;
  }

  /** Under this key the signature verifies no message but the one given. */
  ghost predicate SignedOnly(c: Signatures, message: seq<Byte>, signature: seq<Byte>, key: seq<Byte>) {
    forall m :: c.verify(m, signature, key) ==> m == message
  }

  lemma SameEphemeral(a: seq<Byte>, b: seq<Byte>)
    requires Transcript(a) == Transcript(b)
    ensures a == b
  {
    var n := |Ascii("NZ-CRYPTO-02/handshake/v1")|;
    assert Transcript(a)[n..] == a && Transcript(b)[n..] == b;
  }

  /** Bob rejects Alice's signature with any other ephemeral key than the one she signed. */
  lemma ChangedAliceEphemeral(c: Signatures, random: seq<Byte>, aliceRandom: seq<Byte>, aliceSeed: seq<Byte>,
                              aliceEphemeral: seq<Byte>, bobSeed: seq<Byte>)
    requires AliceStart(c, aliceRandom, aliceSeed).Ok?
    requires var hello := AliceStart(c, aliceRandom, aliceSeed).value;
             SignedOnly(c, Ascii("NZ-CRYPTO-02/handshake/v1") + hello.ephemeral, hello.signature, c.publicKey(aliceSeed))
    ensures var hello := AliceStart(c, aliceRandom, aliceSeed).value;
      aliceEphemeral != hello.ephemeral ==>
        BobRespond(c, random, aliceEphemeral, hello.signature, c.publicKey(aliceSeed), bobSeed)
          == Failure("Alice identity signature invalid")
  {
    hide X25519.SharedBase, X25519.Shared;
    var hello := AliceStart(c, aliceRandom, aliceSeed).value;
    if Transcript(aliceEphemeral) == Transcript(hello.ephemeral) {
      SameEphemeral(aliceEphemeral, hello.ephemeral);
    }
  }

  /** Alice rejects Bob's signature with any other ephemeral key than the one he signed. */
  lemma ChangedBobEphemeral(c: Signatures, secret: seq<Byte>, bobEphemeral: seq<Byte>, signed: seq<Byte>,
                            signature: seq<Byte>, bobKey: seq<Byte>)
    requires SignedOnly(c, Ascii("NZ-CRYPTO-02/handshake/v1") + signed, signature, bobKey)
    ensures bobEphemeral != signed ==>
      AliceFinish(c, secret, bobEphemeral, signature, bobKey) == Failure("Bob identity signature invalid")
  {
    hide X25519.Shared;
    if Transcript(bobEphemeral) == Transcript(signed) {
      SameEphemeral(bobEphemeral, signed);
    }
  }
}
