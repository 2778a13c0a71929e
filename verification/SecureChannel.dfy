/**
 The bidirectional channel of lib/secureChannel.js, lines 24 to 156, over an AEAD
 given as a pair of functions.
 */
module SecureChannel {
  import opened Bits
  import opened Results
  import opened Text
  import opened Encoding
  import opened Hkdf
  import opened SessionKeys

  // ----- The AEAD and its length guards (lib/chacha20poly1305.js) -----

  datatype Aead = Aead(
    seal: (seq<Byte>, seq<Byte>, seq<Byte>, seq<Byte>) -> (seq<Byte>, seq<Byte>),
    open: (seq<Byte>, seq<Byte>, seq<Byte>, seq<Byte>, seq<Byte>) -> Option<seq<Byte>>)

  function Encrypt(a: Aead, key: seq<Byte>, nonce: seq<Byte>, plain: seq<Byte>, aad: seq<Byte>):
    Result<(seq<Byte>, seq<Byte>)>
  {
    if |key| != 32 then Failure("chacha20poly1305: key must be 32 bytes")
    else if |nonce| != 12 then Failure("chacha20poly1305: nonce must be 12 bytes")
    else Ok(a.seal(key, nonce, plain, aad))
  }

  function Decrypt(a: Aead, key: seq<Byte>, nonce: seq<Byte>, cipher: seq<Byte>, tag: seq<Byte>, aad: seq<Byte>):
    Result<Option<seq<Byte>>>
  {
    if |key| != 32 then Failure("chacha20poly1305: key must be 32 bytes")
    else if |nonce| != 12 then Failure("chacha20poly1305: nonce must be 12 bytes")
    else if |tag| != 16 then Failure("chacha20poly1305: tag must be 16 bytes")
    else Ok(a.open(key, nonce, cipher, tag, aad))
  }

  /** Opening undoes sealing, and tags have 16 bytes. */
  ghost predicate CorrectAead(a: Aead) {
    forall key, nonce, plain, aad :: Invertible(a, key, nonce, plain, aad)
  }

  ghost predicate Invertible(a: Aead, key: seq<Byte>, nonce: seq<Byte>, plain: seq<Byte>, aad: seq<Byte>) {
    var (cipher, tag) := a.seal(key, nonce, plain, aad);
    |tag| == 16 && a.open(key, nonce, cipher, tag, aad) == Some(plain)
  }

  // ----- Nonces -----

  const WORD: nat := 0x1_0000_0000

  /** Bytes 8 to 11 of the base are replaced by the counter modulo 2^32, most significant first. */
  function NonceFor(nonceBase: seq<Byte>, counter: nat): (r: seq<Byte>)
    requires |nonceBase| == 12
    ensures |r| == 12 && r[..8] == nonceBase[..8]
  {
    var w := counter % WORD;
    nonceBase[..8] + [w / 0x100_0000, w / 0x1_0000 % 0x100, w / 0x100 % 0x100, w % 0x100]
  }

  method MakeNonce(nonceBase: seq<Byte>, counter: nat) returns (r: Result<seq<Byte>>)
    ensures r == if |nonceBase| == 12 then Ok(NonceFor(nonceBase, counter))
                 else Failure("secureChannel: nonceBase must be 12 bytes")
  {
    hide BitAnd, ShiftRight;
    if |nonceBase| != 12 {
      return Failure("secureChannel: nonceBase must be 12 bytes");
    }
    var nonce := new Byte[12](i requires 0 <= i < 12 => nonceBase[i]);
    assert nonce[..] == nonceBase;
    // the operators >>> and & first reduce the counter to 32 bits
    var w := counter % WORD;
    CounterBytes(w);
    nonce[8] := BitAnd(ShiftRight(w, 24), 0xff);
    nonce[9] := BitAnd(ShiftRight(w, 16), 0xff);
    nonce[10] := BitAnd(ShiftRight(w, 8), 0xff);
    nonce[11] := BitAnd(w, 0xff);
    assert nonce[..] == NonceFor(nonceBase, counter);
    r := Ok(nonce[..]);
  }

  lemma {:induction false} LowByteOf(w: nat)
    ensures BitAnd(w, 0xff) == w % 256
  {
    hide BitAnd, Pow2;
    SmallPowers();
    AndMask(w, 8);
  }

  lemma {:induction false} ShiftByBytes(w: nat)
    ensures ShiftRight(w, 8) == w / 0x100 && ShiftRight(w, 16) == w / 0x1_0000 && ShiftRight(w, 24) == w / 0x100_0000
  {
    hide ShiftRight, Pow2;
    SmallPowers();
    PowerOfSum(16, 8);
    ShiftRightIsDiv(w, 8);
    ShiftRightIsDiv(w, 16);
    ShiftRightIsDiv(w, 24);
  }

  lemma {:induction false} CounterBytes(w: nat)
    requires w < WORD
    ensures BitAnd(ShiftRight(w, 24), 0xff) == w / 0x100_0000
    ensures BitAnd(ShiftRight(w, 16), 0xff) == w / 0x1_0000 % 0x100
    ensures BitAnd(ShiftRight(w, 8), 0xff) == w / 0x100 % 0x100
    ensures BitAnd(w, 0xff) == w % 0x100
  {
    hide BitAnd, ShiftRight;
    ShiftByBytes(w);
    LowByteOf(w / 0x100_0000);
    LowByteOf(w / 0x1_0000);
    LowByteOf(w / 0x100);
    LowByteOf(w);
  }

  /** For one base, nonces are equal exactly when the counters agree modulo 2^32. */
  lemma NonceEqualIffCongruent(nonceBase: seq<Byte>, c: nat, d: nat)
    requires |nonceBase| == 12
    ensures NonceFor(nonceBase, c) == NonceFor(nonceBase, d) <==> c % WORD == d % WORD
  {
    var m, n := NonceFor(nonceBase, c), NonceFor(nonceBase, d);
    WordOfBytes(c % WORD);
    WordOfBytes(d % WORD);
    if m == n {
      assert m[8] == n[8] && m[9] == n[9] && m[10] == n[10] && m[11] == n[11];
    }
  }

  /** The last four bytes of a nonce, most significant first, spell the counter modulo 2^32. */
  lemma NonceSpellsCounter(nonceBase: seq<Byte>, counter: nat)
    requires |nonceBase| == 12
    ensures var n: seq<int> := NonceFor(nonceBase, counter);
      0x100_0000 * n[8] + 0x1_0000 * n[9] + 0x100 * n[10] + n[11] == counter % WORD
  {
    WordOfBytes(counter % WORD);
  }

  lemma WordOfBytes(w: nat)
    requires w < WORD
    ensures w == 0x100_0000 * (w / 0x100_0000) + 0x1_0000 * (w / 0x1_0000 % 0x100) + 0x100 * (w / 0x100 % 0x100) + w % 0x100
  {
    assert w / 0x1_0000 == w / 0x100 / 0x100;
    assert w / 0x100_0000 == w / 0x1_0000 / 0x100;
  }

  // ----- Contexts -----

  datatype Role = Alice | Bob

  function Other(r: Role): Role {
    if r.Alice? then Bob else Alice
  }

  function Arrow(sender: Role): (r: seq<Byte>)
    ensures |r| == 11
  {
    if sender.Alice? then Ascii("/alice->bob") else Ascii("/bob->alice")
  }

  function EpochPrefix(base: seq<Byte>): (r: seq<Byte>)
    ensures |r| == |base| + 7 && r[..|base|] == base && !IsDigit(r[|r| - 1])
  {
    var r := base + Ascii("/epoch-");
    assert Ascii("/epoch-")[6] == 45;
    r
  }

  /** The context of an epoch and a direction, named by its sender. */
  function Context(base: seq<Byte>, epoch: nat, sender: Role): seq<Byte> {
    EpochPrefix(base) + Decimal(epoch) + Arrow(sender)
  }

  /** A numeral after a non-digit can be read back from the end. */
  lemma NumeralSuffix(a: seq<Byte>, d: seq<Byte>, a': seq<Byte>, d': seq<Byte>)
    requires a != [] && !IsDigit(a[|a| - 1]) && a' != [] && !IsDigit(a'[|a'| - 1])
    requires AllDigits(d) && AllDigits(d') && a + d == a' + d'
    ensures a == a' && d == d'
  {
    var s := a + d;
    assert forall k :: |a| <= k < |s| ==> s[k] == d[k - |a|];
    assert s == a' + d';
    assert forall k :: |a'| <= k < |s| ==> s[k] == d'[k - |a'|];
    assert !IsDigit(s[|a| - 1]) && !IsDigit(s[|a'| - 1]);
    assert |a| == |a'|;
    assert s[..|a|] == a && s[|a|..] == d;
    assert (a' + d')[..|a'|] == a' && (a' + d')[|a'|..] == d';
  }

  /** The context string determines the base, the epoch and the direction. */
  lemma ContextInjective(base: seq<Byte>, epoch: nat, sender: Role, base': seq<Byte>, epoch': nat, sender': Role)
    requires Context(base, epoch, sender) == Context(base', epoch', sender')
    ensures base == base' && epoch == epoch' && sender == sender'
  {
    hide Ascii, Arrow, EpochPrefix, Decimal;
    var x, x' := EpochPrefix(base) + Decimal(epoch), EpochPrefix(base') + Decimal(epoch');
    SameParts(x, Arrow(sender), x', Arrow(sender'));
    ArrowsDiffer(sender, sender');
    NumeralSuffix(EpochPrefix(base), Decimal(epoch), EpochPrefix(base'), Decimal(epoch'));
    DecimalInjective(epoch, epoch');
    assert EpochPrefix(base)[..|base|] == EpochPrefix(base')[..|base'|];
  }

  lemma SameParts(x: seq<Byte>, y: seq<Byte>, x': seq<Byte>, y': seq<Byte>)
    requires x + y == x' + y' && |y| == |y'|
    ensures x == x' && y == y'
  {
    var n := |x|;
    assert (x + y)[..n] == x && (x + y)[n..] == y && (x' + y')[..n] == x' && (x' + y')[n..] == y';
  }

  lemma ArrowsDiffer(a: Role, b: Role)
    ensures Arrow(a) == Arrow(b) <==> a == b
  {
    assert Ascii("/alice->bob")[1] == 97 && Ascii("/bob->alice")[1] == 98;
  }

  /** The context spelled out, with the epoch in decimal. */
  lemma {:induction false} ContextText(base: seq<Byte>, epoch: nat)
    ensures Context(base, epoch, Alice) == base + Ascii("/epoch-") + Decimal(epoch) + Ascii("/alice->bob")
    ensures Context(base, epoch, Bob) == base + Ascii("/epoch-") + Decimal(epoch) + Ascii("/bob->alice")
  {
  }

  // ----- Channel states -----

  datatype Config = Config(prims: Primitives, aead: Aead, hash: HashName, keyLength: int,
                           role: Role, base: seq<Byte>, secret: seq<Byte>)

  datatype ChannelState = ChannelState(config: Config, epoch: nat, sendCounter: nat, recvCounter: nat)

  datatype Message = Message(nonce: seq<Byte>, ciphertext: seq<Byte>, tag: seq<Byte>, counter: nat, epoch: nat)

  /** The configurations for which key derivation succeeds. */
  ghost predicate Usable(c: Config) {
    Lawful(c.prims) && c.secret != [] && 0 < c.keyLength <= 64 && !c.hash.Unsupported?
  }

  function KeysFor(c: Config, epoch: nat, sender: Role): (r: Keys)
    requires Usable(c)
    ensures |r.encKey| == c.keyLength && |r.nonceBase| == 12
  {
    DeriveSucceeds(c.prims, Some(c.secret), Context(c.base, epoch, sender), c.hash, c.keyLength);
    Derive(c.prims, Some(c.secret), Context(c.base, epoch, sender), c.hash, c.keyLength).value
  }

  function Initial(c: Config): ChannelState {
    ChannelState(c, 0, 1, 1)
  }

  function SendKeys(s: ChannelState): Keys
    requires Usable(s.config)
  {
    KeysFor(s.config, s.epoch, s.config.role)
  }

  function RecvKeys(s: ChannelState): Keys
    requires Usable(s.config)
  {
    KeysFor(s.config, s.epoch, Other(s.config.role))
  }

  function Sealed(s: ChannelState, plain: seq<Byte>, aad: seq<Byte>): Result<Message>
    requires Usable(s.config)
  {
    var nonce := NonceFor(SendKeys(s).nonceBase, s.sendCounter);
    match Encrypt(s.config.aead, SendKeys(s).encKey, nonce, plain, aad)
    case Failure(e) => Failure(e)
    case Ok((cipher, tag)) => Ok(Message(nonce, cipher, tag, s.sendCounter, s.epoch))
  }

  function Opened(s: ChannelState, nonce: seq<Byte>, cipher: seq<Byte>, tag: seq<Byte>, aad: seq<Byte>):
    Result<Option<seq<Byte>>>
    requires Usable(s.config)
  {
    Decrypt(s.config.aead, RecvKeys(s).encKey, nonce, cipher, tag, aad)
  }

  datatype Action =
    | Send(plain: seq<Byte>, aad: seq<Byte>)
    | Receive(nonce: seq<Byte>, ciphertext: seq<Byte>, tag: seq<Byte>, aad: seq<Byte>)
    | Rekey

  function Next(s: ChannelState, a: Action): (r: ChannelState)
    requires Usable(s.config)
    ensures r.config == s.config
  {
    match a
    case Send(_, _) => s.(sendCounter := s.sendCounter + 1)
    case Receive(nonce, cipher, tag, aad) =>
      var pt := Opened(s, nonce, cipher, tag, aad);
      if pt.Ok? && pt.value.Some? then s.(recvCounter := s.recvCounter + 1) else s
    case Rekey => s.(epoch := s.epoch + 1, sendCounter := 1, recvCounter := 1)
  }

  function Run(s: ChannelState, actions: seq<Action>): (r: ChannelState)
    requires Usable(s.config)
    ensures r.config == s.config
    decreases actions
  {
    if actions == [] then s else Run(Next(s, actions[0]), actions[1..])
  }

  // ----- The channel object -----

  class Channel {
    const config: Config
    var epoch: nat
    var sendCounter: nat
    var recvCounter: nat
    var sendKey: seq<Byte>
    var sendNonceBase: seq<Byte>
    var recvKey: seq<Byte>
    var recvNonceBase: seq<Byte>
    var sessionIdSend: seq<Byte>
    var sessionIdRecv: seq<Byte>

    function State(): ChannelState
      reads this
    {
      ChannelState(config, epoch, sendCounter, recvCounter)
    }

    /** The stored keys are those of the current epoch and of the role. */
    ghost predicate Valid()
      reads this
    {
      && Usable(config)
      && sendKey == SendKeys(State()).encKey && sendNonceBase == SendKeys(State()).nonceBase
      && recvKey == RecvKeys(State()).encKey && recvNonceBase == RecvKeys(State()).nonceBase
      && sessionIdSend == SendKeys(State()).sessionId && sessionIdRecv == RecvKeys(State()).sessionId
    }

    constructor (c: Config)
      requires Usable(c)
      ensures Valid() && State() == Initial(c)
      ensures config == c && epoch == 0 && sendCounter == 1 && recvCounter == 1
    {
      config := c;
      epoch, sendCounter, recvCounter := 0, 1, 1;
      sendKey, sendNonceBase, recvKey, recvNonceBase, sessionIdSend, sessionIdRecv := [], [], [], [], [], [];
      new;
      DeriveKeysForEpoch();
    }

    method DeriveKeysForEpoch()
      requires Usable(config)
      modifies this
      ensures Valid() && State() == old(State())
    {
      var keysAB := KeysFor(config, epoch, Alice);
      var keysBA := KeysFor(config, epoch, Bob);
      if config.role == Alice {
        sendKey, sendNonceBase := keysAB.encKey, keysAB.nonceBase;
        recvKey, recvNonceBase := keysBA.encKey, keysBA.nonceBase;
        sessionIdSend, sessionIdRecv := keysAB.sessionId, keysBA.sessionId;
      } else {
        sendKey, sendNonceBase := keysBA.encKey, keysBA.nonceBase;
        recvKey, recvNonceBase := keysAB.encKey, keysAB.nonceBase;
        sessionIdSend, sessionIdRecv := keysBA.sessionId, keysAB.sessionId;
      }
    }

    method RekeyChannel()
      requires Valid()
      modifies this
      ensures Valid() && State() == Next(old(State()), Rekey)
    {
      epoch := epoch + 1;
      sendCounter := 1;
      recvCounter := 1;
      DeriveKeysForEpoch();
    }

    /** The counter is consumed even when encryption fails. */
    method EncryptToPeer(plain: seq<Byte>, aad: seq<Byte>) returns (r: Result<Message>)
      requires Valid()
      modifies this
      ensures Valid() && State() == Next(old(State()), Send(plain, aad))
      ensures r == Sealed(old(State()), plain, aad)
    {
      var counter := sendCounter;
      sendCounter := sendCounter + 1;
      var nonce := MakeNonce(sendNonceBase, counter);
      match Encrypt(config.aead, sendKey, nonce.value, plain, aad) {
        case Failure(e) => r := Failure(e);
        case Ok(sealed) => r := Ok(Message(nonce.value, sealed.0, sealed.1, counter, epoch));
      }
    }

    method DecryptFromPeer(nonce: seq<Byte>, cipher: seq<Byte>, tag: seq<Byte>, aad: seq<Byte>)
      returns (r: Result<Option<seq<Byte>>>)
      requires Valid()
      modifies this
      ensures Valid() && State() == Next(old(State()), Receive(nonce, cipher, tag, aad))
      ensures r == Opened(old(State()), nonce, cipher, tag, aad)
    {
      r := Decrypt(config.aead, recvKey, nonce, cipher, tag, aad);
      if r.Ok? && r.value.Some? {
        recvCounter := recvCounter + 1;
      }
    }
  }

  /** The first complaint about the arguments of the constructor, if there is one. */
  function OpenError(c: Config, secretGiven: bool): Option<string>
    requires Lawful(c.prims)
  {
    if !secretGiven then Some("SecureChannel: sharedSecret is required")
    else if c.base == [] then Some("SecureChannel: baseContext is required")
    else
      match Derive(c.prims, Some(c.secret), Context(c.base, 0, Alice), c.hash, c.keyLength)
      case Failure(e) => Some(e)
      case Ok(_) => None
  }

  /** Creation fails on the inputs the constructor of the source rejects, and only on those. */
  method Open(c: Config, secretGiven: bool) returns (r: Result<Channel>)
    requires Lawful(c.prims)
    ensures r.Ok? <==> secretGiven && c.base != [] && Usable(c)
    ensures r.Ok? ==> r.value.Valid() && r.value.State() == ChannelState(c, 0, 1, 1)
    ensures r.Failure? ==> Some(r.error) == OpenError(c, secretGiven)
    ensures !secretGiven ==> r.Failure? && r.error == "SecureChannel: sharedSecret is required"
    ensures secretGiven && c.base == [] ==> r.Failure? && r.error == "SecureChannel: baseContext is required"
    ensures secretGiven && c.base != [] && c.secret == [] ==>
      r.Failure? && r.error == "deriveSessionKeys: sharedSecret must be non-empty"
  {
    if !secretGiven {
      return Failure("SecureChannel: sharedSecret is required");
    }
    if c.base == [] {
      return Failure("SecureChannel: baseContext is required");
    }
    DeriveSucceeds(c.prims, Some(c.secret), Context(c.base, 0, Alice), c.hash, c.keyLength);
    match Derive(c.prims, Some(c.secret), Context(c.base, 0, Alice), c.hash, c.keyLength) {
      case Failure(e) => return Failure(e);
      case Ok(_) =>
        var channel := new Channel(c);
        return Ok(channel);
    }
  }
}
