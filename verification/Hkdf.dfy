/**
 HMAC padding and HKDF (lib/hkdf.js, lines 31 to 121), over HMAC-SHA-512 and BLAKE2b
 as given functions.
 */
module Hkdf {
  import opened Bits
  import opened Results
  import opened Encoding

  datatype HashName = Sha512 | Blake2b | Unsupported(name: string)

  datatype Primitives = Primitives(
    hmacSha512: (seq<Byte>, seq<Byte>) -> seq<Byte>,
    blake2b: (seq<Byte>, nat) -> seq<Byte>)

  /** The digests have their fixed lengths. */
  ghost predicate Lawful(p: Primitives) {
    && (forall k, d :: |p.hmacSha512(k, d)| == 64)
    && (forall d, n :: |p.blake2b(d, n)| == n)
  }

  const BLOCK: nat := 128
  const DIGEST: nat := 64

  function Zeros(n: nat): (r: seq<Byte>)
    ensures |r| == n && forall i :: 0 <= i < n ==> r[i] == 0
  {
    seq(n, _ => 0)
  }

  // ----- HMAC-BLAKE2b -----

  lemma {:induction false} XorBelow(a: nat, b: nat, n: nat)
    requires a < Pow2(n) && b < Pow2(n)
    ensures BitXor(a, b) < Pow2(n)
  {
    if n > 0 && a > 0 && b > 0 { XorBelow(a / 2, b / 2, n - 1); }
  }

  function XorByte(a: Byte, b: Byte): Byte {
    XorBelow(a, b, 8);
    SmallPowers();
    BitXor(a, b)
  }

  /** Every byte combined with the pad byte. */
  function Padded(k: seq<Byte>, pad: Byte): (r: seq<Byte>)
    ensures |r| == |k|
  {
    seq(|k|, i requires 0 <= i < |k| => XorByte(k[i], pad))
  }

  /** The key block: long keys are hashed, short ones filled with zeros. */
  function KeyBlock(p: Primitives, key: seq<Byte>): (r: seq<Byte>)
    requires Lawful(p)
    ensures |r| == BLOCK
  {
    var k := if |key| > BLOCK then p.blake2b(key, DIGEST) else key;
    k + Zeros(BLOCK - |k|)
  }

  /** HMAC of section 2 of RFC 2104 with BLAKE2b. */
  function Hmac(p: Primitives, key: seq<Byte>, data: seq<Byte>): seq<Byte>
    requires Lawful(p)
  {
    var k := KeyBlock(p, key);
    p.blake2b(Padded(k, 0x5c) + p.blake2b(Padded(k, 0x36) + data, DIGEST), DIGEST)
  }

  method HmacBlake2b(p: Primitives, key: seq<Byte>, data: seq<Byte>) returns (r: seq<Byte>)
    requires Lawful(p)
    ensures r == Hmac(p, key, data)
  {
    var k := key;
    if |k| > BLOCK {
      k := p.blake2b(k, DIGEST);
    }
    if |k| < BLOCK {
      var tmp := new Byte[BLOCK](i => if 0 <= i < |k| then k[i] else 0);
      assert tmp[..] == k + Zeros(BLOCK - |k|);
      k := tmp[..];
    }
    assert k == KeyBlock(p, key);
    var oKeyPad, iKeyPad := new Byte[BLOCK](_ => 0), new Byte[BLOCK](_ => 0);
    for i := 0 to BLOCK
      invariant forall j :: 0 <= j < i ==> oKeyPad[j] == XorByte(k[j], 0x5c)
      invariant forall j :: 0 <= j < i ==> iKeyPad[j] == XorByte(k[j], 0x36)
    {
      oKeyPad[i] := XorByte(k[i], 0x5c);
      iKeyPad[i] := XorByte(k[i], 0x36);
    }
    assert oKeyPad[..] == Padded(k, 0x5c);
    assert iKeyPad[..] == Padded(k, 0x36);
    var inner := p.blake2b(iKeyPad[..] + data, DIGEST);
    r := p.blake2b(oKeyPad[..] + inner, DIGEST);
  }

  /** A short key and its extension by zeros give the same code. */
  lemma HmacZeroExtension(p: Primitives, key: seq<Byte>, n: nat, data: seq<Byte>)
    requires Lawful(p) && |key| + n <= BLOCK
    ensures Hmac(p, key + Zeros(n), data) == Hmac(p, key, data)
  {
    assert key + Zeros(n) + Zeros(BLOCK - |key| - n) == key + Zeros(BLOCK - |key|);
  }

  function Mac(p: Primitives, hash: HashName, key: seq<Byte>, data: seq<Byte>): (r: seq<Byte>)
    requires Lawful(p) && !hash.Unsupported?
    ensures |r| == DIGEST
  {
    if hash.Sha512? then p.hmacSha512(key, data) else Hmac(p, key, data)
  }

  method ComputeMac(p: Primitives, hash: HashName, key: seq<Byte>, data: seq<Byte>) returns (r: seq<Byte>)
    requires Lawful(p) && !hash.Unsupported?
    ensures r == Mac(p, hash, key, data)
  {
    if hash.Sha512? {
      r := p.hmacSha512(key, data);
    } else {
      r := HmacBlake2b(p, key, data);
    }
  }

  // ----- Extract and expand -----

  function UnsupportedHash(hash: HashName): string
    requires hash.Unsupported?
  {
    "hkdf: unsupported hash: " + hash.name
  }

  function Extract(p: Primitives, hash: HashName, salt: seq<Byte>, ikm: seq<Byte>): Result<seq<Byte>>
    requires Lawful(p)
  {
    if hash.Unsupported? then Failure(UnsupportedHash(hash))
    else Ok(Mac(p, hash, if salt == [] then Zeros(DIGEST) else salt, ikm))
  }

  /** T(i) of section 2.3 of RFC 5869; T(0) is empty. */
  function Block(p: Primitives, hash: HashName, prk: seq<Byte>, info: seq<Byte>, i: nat): (r: seq<Byte>)
    requires Lawful(p) && !hash.Unsupported? && i <= 255
    ensures |r| == if i == 0 then 0 else DIGEST
  {
    if i == 0 then [] else Mac(p, hash, prk, Block(p, hash, prk, info, i - 1) + info + [i])
  }

  /** T(1) + ... + T(n). */
  function Blocks(p: Primitives, hash: HashName, prk: seq<Byte>, info: seq<Byte>, n: nat): (r: seq<Byte>)
    requires Lawful(p) && !hash.Unsupported? && n <= 255
    ensures |r| == n * DIGEST
  {
    if n == 0 then [] else Blocks(p, hash, prk, info, n - 1) + Block(p, hash, prk, info, n)
  }

  function BlockCount(length: nat): nat {
    (length + DIGEST - 1) / DIGEST
  }

  function Expand(p: Primitives, hash: HashName, prk: seq<Byte>, info: seq<Byte>, length: int): (r: Result<seq<Byte>>)
    requires Lawful(p)
    ensures r.Ok? ==> |r.value| == length
  {
    if hash.Unsupported? then Failure(UnsupportedHash(hash))
    else if length <= 0 || length > 255 * DIGEST then Failure("hkdfExpand: invalid length")
    else Ok(Blocks(p, hash, prk, info, BlockCount(length))[..length])
  }

  /** Copies s into a from position pos, as the typed array method `set` does. */
  method SetAt(a: array<Byte>, s: seq<Byte>, pos: nat)
    requires pos + |s| <= a.Length
    modifies a
    ensures a[..] == old(a[..pos]) + s + old(a[pos + |s|..])
  {
    forall j | 0 <= j < |s| {
      a[pos + j] := s[j];
    }
  }

  /** The part of the stream written after one more block. */
  lemma NextBlock(p: Primitives, hash: HashName, prk: seq<Byte>, info: seq<Byte>, length: nat, i: nat, pos: nat,
                  size: nat)
    requires Lawful(p) && !hash.Unsupported? && 0 < i <= 255
    requires pos == (i - 1) * DIGEST < length && size == if DIGEST <= length - pos then DIGEST else length - pos
    ensures Blocks(p, hash, prk, info, i)[..pos + size]
         == Blocks(p, hash, prk, info, i - 1)[..pos] + Block(p, hash, prk, info, i)[..size]
  {
  }

  /** The buffer loop of HKDF-Expand; every write is in bounds and the counter byte never wraps. */
  method HkdfExpand(p: Primitives, hash: HashName, prk: seq<Byte>, info: seq<Byte>, length: int)
    returns (r: Result<seq<Byte>>)
    requires Lawful(p)
    ensures r == Expand(p, hash, prk, info, length)
  {
    hide Mac, Blocks, Lawful;
    if hash.Unsupported? {
      return Failure(UnsupportedHash(hash));
    }
    if length <= 0 || length > 255 * DIGEST {
      return Failure("hkdfExpand: invalid length");
    }
    var n := BlockCount(length);
    var t: seq<Byte> := [];
    var okm := new Byte[length](_ => 0);
    var pos := 0;
    for i := 1 to n + 1
      invariant t == Block(p, hash, prk, info, i - 1)
      invariant pos == if i <= n then (i - 1) * DIGEST else length
      invariant okm[..pos] == Blocks(p, hash, prk, info, i - 1)[..pos]
    {
      var input := t + info + [i];
      t := ComputeMac(p, hash, prk, input);
      var slice := t[..if DIGEST <= length - pos then DIGEST else length - pos];
      NextBlock(p, hash, prk, info, length, i, pos, |slice|);
      ghost var done := okm[..pos];
      SetAt(okm, slice, pos);
      assert okm[..pos + |slice|] == okm[..][..pos + |slice|] == done + slice;
      pos := pos + |slice|;
    }
    assert okm[..] == okm[..length];
    r := Ok(okm[..]);
  }

  /** The byte at position j is byte j mod 64 of block j div 64 + 1. */
  lemma {:induction false} ByteOfBlocks(p: Primitives, hash: HashName, prk: seq<Byte>, info: seq<Byte>, n: nat, j: nat)
    requires Lawful(p) && !hash.Unsupported? && n <= 255 && j < n * DIGEST
    ensures Blocks(p, hash, prk, info, n)[j] == Block(p, hash, prk, info, j / DIGEST + 1)[j % DIGEST]
  {
    if j < (n - 1) * DIGEST {
      ByteOfBlocks(p, hash, prk, info, n - 1, j);
    }
  }

  /** Section 2.3 of RFC 5869, byte by byte. */
  lemma {:induction false} ExpandBytes(p: Primitives, hash: HashName, prk: seq<Byte>, info: seq<Byte>, length: int,
                                       j: nat)
    requires Lawful(p) && !hash.Unsupported? && 0 < length <= 255 * DIGEST && j < length
    ensures var r := Expand(p, hash, prk, info, length);
      r.Ok? && |r.value| == length && r.value[j] == Block(p, hash, prk, info, j / DIGEST + 1)[j % DIGEST]
  {
    ByteOfBlocks(p, hash, prk, info, BlockCount(length), j);
  }

  /** Shorter outputs are prefixes of longer ones. */
  lemma ExpandPrefix(p: Primitives, hash: HashName, prk: seq<Byte>, info: seq<Byte>, short: int, long: int)
    requires Lawful(p) && !hash.Unsupported? && 0 < short <= long <= 255 * DIGEST
    ensures Expand(p, hash, prk, info, short).value == Expand(p, hash, prk, info, long).value[..short]
  {
    var a, b := Expand(p, hash, prk, info, short).value, Expand(p, hash, prk, info, long).value;
    forall j | 0 <= j < short ensures a[j] == b[..short][j] {
      ExpandBytes(p, hash, prk, info, short, j);
      ExpandBytes(p, hash, prk, info, long, j);
    }
  }

  function ExtractExpand(p: Primitives, hash: HashName, salt: seq<Byte>, ikm: seq<Byte>, info: seq<Byte>, length: int):
    (r: Result<seq<Byte>>)
    requires Lawful(p)
    ensures r.Ok? ==> |r.value| == length
  {
    match Extract(p, hash, salt, ikm)
    case Failure(e) => Failure(e)
    case Ok(prk) => Expand(p, hash, prk, info, length)
  }

  // ----- The outputs in terms of the primitives -----

  lemma XorInvolution(a: Byte, b: Byte)
    ensures XorByte(XorByte(a, b), b) == a
  {
    XorBelow(a, b, 8);
    SmallPowers();
    XorTwice(a, b);
  }

  lemma {:induction false} XorTwice(a: nat, b: nat)
    ensures BitXor(BitXor(a, b), b) == a
  {
    if a > 0 && b > 0 {
      XorTwice(a / 2, b / 2);
      XorHalves(a, b);
      XorUp(BitXor(a, b), b);
    } else if b > 0 {
      XorSelf(b);
    }
  }

  lemma {:induction false} XorSelf(b: nat)
    ensures BitXor(b, b) == 0
  {
    if b > 0 { XorSelf(b / 2); }
  }

  lemma {:induction false} XorHalves(a: nat, b: nat)
    requires a > 0 && b > 0
    ensures BitXor(a, b) / 2 == BitXor(a / 2, b / 2) && (BitXor(a, b) % 2 == if a % 2 != b % 2 then 1 else 0)
  {
  }

  lemma {:induction false} XorUp(x: nat, b: nat)
    requires b > 0
    ensures BitXor(x, b) == 2 * BitXor(x / 2, b / 2) + (if x % 2 != b % 2 then 1 else 0)
  {
    if x == 0 { assert BitXor(0, b / 2) == b / 2; }
  }

  /** A key filled up with zeros to 128 bytes, each combined with the pad byte. */
  function KeyPad(key: seq<Byte>, pad: Byte): (r: seq<Byte>)
    ensures |r| == 128 && forall i :: 0 <= i < 128 ==> r[i] == XorByte(KeyByte(key, i), pad)
  {
    seq(128, i requires 0 <= i < 128 => XorByte(KeyByte(key, i), pad))
  }

  function KeyByte(key: seq<Byte>, i: nat): Byte {
    if i < |key| then key[i] else 0
  }

  /** Section 2 of RFC 2104, for keys up to the block size; a longer key stands for its digest. */
  lemma HmacIsRfc2104(p: Primitives, key: seq<Byte>, data: seq<Byte>)
    requires Lawful(p)
    ensures |key| <= 128 ==>
      Hmac(p, key, data) == p.blake2b(KeyPad(key, 0x5c) + p.blake2b(KeyPad(key, 0x36) + data, 64), 64)
    ensures |key| > 128 ==> Hmac(p, key, data) == Hmac(p, p.blake2b(key, 64), data)
  {
    if |key| <= 128 {
      assert Padded(KeyBlock(p, key), 0x5c) == KeyPad(key, 0x5c);
      assert Padded(KeyBlock(p, key), 0x36) == KeyPad(key, 0x36);
    }
  }

  /** Extraction authenticates the input under the salt, with 64 zeros for an empty one. */
  lemma ExtractIs(p: Primitives, salt: seq<Byte>, ikm: seq<Byte>)
    requires Lawful(p)
    ensures var key := if salt == [] then Zeros(64) else salt;
      && Extract(p, Sha512, salt, ikm) == Ok(p.hmacSha512(key, ikm))
      && Extract(p, Blake2b, salt, ikm) == Ok(Hmac(p, key, ikm))
  {
  }

  /** Zeros after a short salt, and an empty salt, do not matter to BLAKE2b. */
  lemma ExtractZeroExtension(p: Primitives, salt: seq<Byte>, n: nat, ikm: seq<Byte>)
    requires Lawful(p) && |salt| + n <= 128
    ensures salt != [] ==> Extract(p, Blake2b, salt + Zeros(n), ikm) == Extract(p, Blake2b, salt, ikm)
    ensures Extract(p, Blake2b, [], ikm) == Extract(p, Blake2b, Zeros(64), ikm)
    ensures Extract(p, Sha512, [], ikm) == Extract(p, Sha512, Zeros(64), ikm)
  {
    hide Hmac;
    HmacZeroExtension(p, salt, n, ikm);
  }

  /** T(1), T(2) and T(3) of section 2.3 of RFC 5869, with HMAC-SHA-512 or HMAC-BLAKE2b. */
  lemma ThreeBlocks(p: Primitives, hash: HashName, prk: seq<Byte>, info: seq<Byte>)
    requires Lawful(p) && !hash.Unsupported?
    ensures var m := (data: seq<Byte>) => if hash.Sha512? then p.hmacSha512(prk, data) else Hmac(p, prk, data);
      var t1 := m(info + [1]);
      var t2 := m(t1 + info + [2]);
      var t3 := m(t2 + info + [3]);
      Expand(p, hash, prk, info, 192) == Ok(t1 + t2 + t3)
  {
    var b1, b2, b3 := Block(p, hash, prk, info, 1), Block(p, hash, prk, info, 2), Block(p, hash, prk, info, 3);
    assert Block(p, hash, prk, info, 0) == [] && [] + info + [1] == info + [1];
    hide Hmac, Lawful;
    assert Blocks(p, hash, prk, info, 1) == [] + b1 == b1;
    assert Blocks(p, hash, prk, info, 2) == b1 + b2;
    assert Blocks(p, hash, prk, info, 3) == b1 + b2 + b3;
    assert Blocks(p, hash, prk, info, 3)[..192] == b1 + b2 + b3;
  }

  /** Expansion succeeds exactly for these lengths. */
  lemma ExpandSucceeds(p: Primitives, hash: HashName, prk: seq<Byte>, info: seq<Byte>, length: int)
    requires Lawful(p)
    ensures Expand(p, hash, prk, info, length).Ok? <==> !hash.Unsupported? && 0 < length <= 16320
    ensures !hash.Unsupported? && !(0 < length <= 16320) ==>
      Expand(p, hash, prk, info, length) == Failure("hkdfExpand: invalid length")
    ensures hash.Unsupported? ==>
      Expand(p, hash, prk, info, length) == Extract(p, hash, prk, info) == Failure("hkdf: unsupported hash: " + hash.name)
  {
  }
}
