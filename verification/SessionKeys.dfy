/**
 Session key derivation (lib/sessionKeys.js, lines 59 to 109).
 */
module SessionKeys {
  import opened Results
  import opened Text
  import opened Encoding
  import opened Hkdf

  datatype Keys = Keys(encKey: seq<Byte>, decKey: seq<Byte>, nonceBase: seq<Byte>,
                       sessionId: seq<Byte>, contextHash: seq<Byte>)

  function Derive(p: Primitives, sharedSecret: Option<seq<Byte>>, context: seq<Byte>, hash: HashName, keyLength: int):
    Result<Keys>
    requires Lawful(p)
  {
    if sharedSecret.None? then Failure("deriveSessionKeys: sharedSecret is required")
    else if sharedSecret.value == [] then Failure("deriveSessionKeys: sharedSecret must be non-empty")
    else if keyLength <= 0 || keyLength > 64 then Failure("deriveSessionKeys: keyLength must be between 1 and 64")
    else
      var ss := sharedSecret.value;
      var contextHash := p.blake2b(context, 32);
      var sessionId := p.blake2b(ss + context, 16);
      match ExtractExpand(p, hash, contextHash, ss, Info(contextHash), keyLength * 2 + 12)
      case Failure(e) => Failure(e)
      case Ok(okm) =>
        Ok(Keys(okm[..keyLength], okm[keyLength..keyLength * 2], okm[keyLength * 2..keyLength * 2 + 12],
                sessionId, contextHash))
  }

  function Info(contextHash: seq<Byte>): seq<Byte> {
    contextHash + Ascii("NZ-CRYPTO-02/session-keys")
  }

  /** Derivation succeeds exactly on these inputs, whatever the context. */
  lemma DeriveSucceeds(p: Primitives, sharedSecret: Option<seq<Byte>>, context: seq<Byte>, hash: HashName,
                       keyLength: int)
    requires Lawful(p)
    ensures Derive(p, sharedSecret, context, hash, keyLength).Ok?
       <==> sharedSecret.Some? && sharedSecret.value != [] && 0 < keyLength <= 64 && !hash.Unsupported?
  {
  }

  /** The two keys and the nonce base cut the output of HKDF without gap or overlap. */
  lemma KeysPartition(p: Primitives, ss: seq<Byte>, context: seq<Byte>, hash: HashName, keyLength: int)
    requires Lawful(p) && ss != [] && 0 < keyLength <= 64 && !hash.Unsupported?
    ensures var h := p.blake2b(context, 32);
      var okm := ExtractExpand(p, hash, h, ss, Info(h), keyLength * 2 + 12);
      var keys := Derive(p, Some(ss), context, hash, keyLength);
      okm.Ok? && keys.Ok? &&
      keys.value.encKey + keys.value.decKey + keys.value.nonceBase == okm.value &&
      |keys.value.encKey| == |keys.value.decKey| == keyLength && |keys.value.nonceBase| == 12 &&
      |keys.value.sessionId| == 16 && |keys.value.contextHash| == 32
  {
  }

  /**
   The keys from the primitives: both keys and the nonce base are the first bytes of three blocks keyed by
   the secret extracted under the hash of the context.
   */
  lemma KeysFromPrimitives(p: Primitives, ss: seq<Byte>, context: seq<Byte>, hash: HashName, keyLength: int)
    requires Lawful(p) && ss != [] && 0 < keyLength <= 64 && !hash.Unsupported?
    ensures var mac := (key: seq<Byte>, data: seq<Byte>) =>
        if hash.Sha512? then p.hmacSha512(key, data) else Hmac(p, key, data);
      var h := p.blake2b(context, 32);
      var info := h + Ascii("NZ-CRYPTO-02/session-keys");
      var prk := mac(h, ss);
      var t1 := mac(prk, info + [1]);
      var t2 := mac(prk, t1 + info + [2]);
      var t3 := mac(prk, t2 + info + [3]);
      var keys := Derive(p, Some(ss), context, hash, keyLength);
      && keys.Ok? && |t1 + t2 + t3| == 192
      && keys.value.encKey + keys.value.decKey + keys.value.nonceBase == (t1 + t2 + t3)[..keyLength * 2 + 12]
      && |keys.value.encKey| == |keys.value.decKey| == keyLength && |keys.value.nonceBase| == 12
      && keys.value.sessionId == p.blake2b(ss + context, 16) && keys.value.contextHash == h
  {
    hide Hmac, Expand;
    var h := p.blake2b(context, 32);
    var prk := Mac(p, hash, h, ss);
    assert Extract(p, hash, h, ss) == Ok(prk);
    ThreeBlocks(p, hash, prk, Info(h));
    ExpandPrefix(p, hash, prk, Info(h), keyLength * 2 + 12, 192);
    ExpandSucceeds(p, hash, prk, Info(h), keyLength * 2 + 12);
    KeysPartition(p, ss, context, hash, keyLength);
  }

  /** The usual case: HMAC-SHA-512 and 32-byte keys take one block and 12 bytes of the next. */
  lemma UsualKeys(p: Primitives, ss: seq<Byte>, context: seq<Byte>)
    requires Lawful(p) && ss != []
    ensures var h := p.blake2b(context, 32);
      var info := h + Ascii("NZ-CRYPTO-02/session-keys");
      var prk := p.hmacSha512(h, ss);
      var t1 := p.hmacSha512(prk, info + [1]);
      var t2 := p.hmacSha512(prk, t1 + info + [2]);
      var keys := Derive(p, Some(ss), context, Sha512, 32);
      && keys.Ok? && |t2| == 64
      && keys.value.encKey == t1[..32] && keys.value.decKey == t1[32..] && keys.value.nonceBase == t2[..12]
  {
    hide Derive;
    KeysFromPrimitives(p, ss, context, Sha512, 32);
    var h := p.blake2b(context, 32);
    var info := h + Ascii("NZ-CRYPTO-02/session-keys");
    var prk := p.hmacSha512(h, ss);
    var t1 := p.hmacSha512(prk, info + [1]);
    var t2 := p.hmacSha512(prk, t1 + info + [2]);
    var t3 := p.hmacSha512(prk, t2 + info + [3]);
    var keys := Derive(p, Some(ss), context, Sha512, 32).value;
    CutBlocks(keys.encKey, keys.decKey, keys.nonceBase, t1, t2, t3);
  }

  lemma CutBlocks(a: seq<Byte>, b: seq<Byte>, c: seq<Byte>, t1: seq<Byte>, t2: seq<Byte>, t3: seq<Byte>)
    requires |a| == |b| == 32 && |c| == 12 && |t1| == |t2| == |t3| == 64 && a + b + c == (t1 + t2 + t3)[..76]
    ensures a == t1[..32] && b == t1[32..] && c == t2[..12]
  {
    var s := a + b + c;
    assert s[..32] == a && s[32..64] == b && s[64..76] == c;
    var t := (t1 + t2 + t3)[..76];
    assert t[..32] == t1[..32] && t[32..64] == t1[32..] && t[64..76] == t2[..12];
  }

  /** The errors of derivation, in the order in which the arguments are examined. */
  lemma DeriveErrors(p: Primitives, ss: seq<Byte>, context: seq<Byte>, hash: HashName, keyLength: int)
    requires Lawful(p)
    ensures Derive(p, None, context, hash, keyLength) == Failure("deriveSessionKeys: sharedSecret is required")
    ensures Derive(p, Some([]), context, hash, keyLength) == Failure("deriveSessionKeys: sharedSecret must be non-empty")
    ensures ss != [] && !(1 <= keyLength <= 64) ==>
      Derive(p, Some(ss), context, hash, keyLength) == Failure("deriveSessionKeys: keyLength must be between 1 and 64")
    ensures ss != [] && 1 <= keyLength <= 64 && hash.Unsupported? ==>
      Derive(p, Some(ss), context, hash, keyLength) == Failure("hkdf: unsupported hash: " + hash.name)
  {
  }
}
